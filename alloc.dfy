// The global allocator and the std buffer operations the crate relies on.
//
// `live` is the set of allocations not yet freed and `frees` the log of every
// deallocation.  The heap invariant says that an allocated address is at any
// moment either live or freed, that it is freed at most once, and that freed
// addresses are never handed out again.  A buffer of capacity zero owns no
// allocation.

module Alloc {
  import opened Panics
  import opened Convert

  /** isize::MAX of the target: no allocation may exceed it. */
  function IsizeMax(wide: bool): nat
  {
    if wide then 0x7FFF_FFFF_FFFF_FFFF else 0x7FFF_FFFF
  }

  /** The capacity `to_owned` gives n elements of a kind (a CString adds its nul). */
  function OwnedCapacity(k: Kind, n: nat): nat
  {
    if k == CStr then n + 1 else n
  }

  /** The allocation an owned buffer is responsible for, if any. */
  function Allocation<T>(o: Buf<T>): set<nat>
  {
    if o.cap != 0 then {o.addr} else {}
  }

  /** The same, as the entries its drop appends to the free log. */
  function AllocationLog<T>(o: Buf<T>): seq<nat>
  {
    if o.cap != 0 then [o.addr] else []
  }

  /** The capacity of the buffer a rebuilding closure assigns (a CString always adds its nul). */
  function RebuiltCapacity<T>(k: Kind, m: Mutation<T>): (c: nat)
    requires m.Rebuilds?
    ensures c >= |m.data|
    ensures k == CStr ==> c == |m.data| + 1
    ensures k != CStr ==> c == |m.data| + m.spare
  {
    if k == CStr then |m.data| + 1 else |m.data| + m.spare
  }

  /** The capacity a growing Vec asks for: double, or what is required if that is more. */
  function Grown(cap: nat, required: nat): (c: nat)
    ensures c >= required && c >= 2 * cap
  {
    if 2 * cap >= required then 2 * cap else required
  }

  lemma DistinctCount(s: seq<nat>, a: nat)
    requires forall i, j | 0 <= i < j < |s| :: s[i] != s[j]
    requires a in s
    ensures multiset(s)[a] == 1
  {
    var k := |s| - 1;
    assert s == s[..k] + [s[k]];
    if s[k] == a {
      assert a !in s[..k];
    } else {
      DistinctCount(s[..k], a);
    }
  }

  class Heap {
    /** target_pointer_width = "64". */
    const wide: bool
    var next: nat
    ghost var live: set<nat>
    ghost var frees: seq<nat>

    ghost predicate Valid()
      reads this
    {
      DANGLING < next && DANGLING !in live &&
      (forall a | a in live :: a < next) &&
      (forall i | 0 <= i < |frees| :: DANGLING < frees[i] < next && frees[i] !in live) &&
      (forall i, j | 0 <= i < j < |frees| :: frees[i] != frees[j]) &&
      (forall a: nat | DANGLING < a < next :: a in live || a in frees)
    }

    /** An address no allocation has had yet. */
    ghost predicate Unused(a: nat)
      reads this
    {
      next <= a
    }

    constructor (wide: bool)
      ensures Valid() && this.wide == wide && live == {} && frees == []
    {
      this.wide := wide;
      next := DANGLING + 1;
      live := {};
      frees := [];
    }

    /** An allocation that is not live is freed exactly once. */
    lemma FreedExactlyOnce(a: nat)
      requires Valid() && DANGLING < a < next && a !in live
      ensures multiset(frees)[a] == 1
    {
      DistinctCount(frees, a);
    }

    /** A buffer holding `data` with room for `cap` elements; capacity 0 allocates nothing. */
    method Allocate<T>(data: seq<T>, cap: nat) returns (o: Buf<T>)
      requires Valid() && |data| <= cap
      modifies this
      ensures Valid() && o.data == data && o.cap == cap && frees == old(frees)
      ensures old(next) <= next
      ensures cap == 0 ==> o.addr == DANGLING
      ensures cap != 0 ==> old(Unused(o.addr))
      ensures live == old(live) + Allocation(o)
    {
      if cap == 0 {
        o := Buf(DANGLING, data, 0);
      } else {
        o := Buf(next, data, cap);
        live := live + {next};
        next := next + 1;
      }
    }

    /** The drop of an owned buffer: frees its allocation, if it has one. */
    method Release<T>(o: Buf<T>)
      requires Valid() && Allocation(o) <= live
      modifies this
      ensures Valid() && next == old(next)
      ensures old(next) <= next
      ensures live == old(live) - Allocation(o)
      ensures frees == old(frees) + AllocationLog(o)
    {
      if o.cap != 0 {
        live := live - {o.addr};
        frees := frees + [o.addr];
      }
    }

    /** `ToOwned::to_owned` of a borrowed view: a new buffer of exactly its length. */
    method ToOwned<T>(k: Kind, v: View<T>) returns (o: Buf<T>)
      requires Valid() && |v.data| < UsizeLimit(wide)
      modifies this
      ensures Valid() && o.data == v.data && o.cap == OwnedCapacity(k, |v.data|)
      ensures old(next) <= next
      ensures BufValid(k, wide, o) && frees == old(frees)
      ensures o.cap == 0 ==> o.addr == DANGLING
      ensures o.cap != 0 ==> old(Unused(o.addr))
      ensures live == old(live) + Allocation(o)
    {
      o := Allocate(v.data, OwnedCapacity(k, |v.data|));
    }

    /**
     * `Vec::reserve` / `String::reserve`: keeps the buffer when its spare room
     * suffices, otherwise moves the elements to a grown allocation and frees
     * the old one; panics with "capacity overflow" beyond isize::MAX.
     */
    method Reserve<T>(o: Buf<T>, additional: nat) returns (r: Checked<Buf<T>>)
      requires Valid() && |o.data| <= o.cap && Allocation(o) <= live
      modifies this
      ensures Valid() && old(next) <= next
      ensures r.Abort? ==> r.panic == CapacityOverflow && live == old(live) && frees == old(frees)
      ensures r.Ok? ==> r.value.data == o.data && r.value.cap >= |o.data| + additional
      ensures r.Ok? && o.cap - |o.data| >= additional ==> r.value == o && live == old(live) && frees == old(frees)
      ensures r.Ok? && o.cap - |o.data| < additional ==>
        r.value.cap == Grown(o.cap, |o.data| + additional) && r.value.cap <= IsizeMax(wide) &&
        r.value.cap != 0 && old(Unused(r.value.addr)) &&
        live == old(live) - Allocation(o) + {r.value.addr} && frees == old(frees) + AllocationLog(o)
      ensures r.Abort? <==> o.cap - |o.data| < additional && Grown(o.cap, |o.data| + additional) > IsizeMax(wide)
    {
      if o.cap - |o.data| >= additional {
        return Ok(o);
      }
      var newCap := Grown(o.cap, |o.data| + additional);
      if newCap > IsizeMax(wide) {
        return Abort(CapacityOverflow);
      }
      var n := Allocate(o.data, newCap);
      Release(o);
      return Ok(n);
    }

    /** `String::push_str` / `Vec::extend_from_slice`: reserve, then append. */
    method PushSlice<T>(o: Buf<T>, s: seq<T>) returns (r: Checked<Buf<T>>)
      requires Valid() && |o.data| <= o.cap && Allocation(o) <= live
      modifies this
      ensures Valid() && old(next) <= next
      ensures r.Abort? ==> r.panic == CapacityOverflow && live == old(live) && frees == old(frees)
      ensures r.Ok? ==> r.value.data == o.data + s && |r.value.data| <= r.value.cap <= Grown(o.cap, |o.data| + |s|)
      ensures r.Ok? ==> Allocation(r.value) <= live && live - Allocation(r.value) == old(live) - Allocation(o)
      ensures r.Ok? ==> r.value.cap == o.cap || r.value.cap <= IsizeMax(wide)
      ensures r.Ok? ==> r.value.addr == o.addr || old(Unused(r.value.addr))
      ensures r.Ok? ==> Allocation(r.value) == Allocation(o) || (r.value.cap != 0 && old(Unused(r.value.addr)))
      ensures r.Ok? ==> r.value.cap >= o.cap
      ensures r.Ok? && r.value.cap != o.cap ==> Allocation(o) !! live && r.value.cap != 0 && old(Unused(r.value.addr))
    {
      var g := Reserve(o, |s|);
      if g.Abort? {
        return Abort(g.panic);
      }
      var n := g.value;
      return Ok(Buf(n.addr, n.data + s, n.cap));
    }

    /**
     * The buffer effect of a closure that returns (see `Mutation`).  An edit
     * in place clears the buffer and pushes the new content; a rebuild, and
     * any new content of a CString (`*o = CString::new(..)`), allocates the
     * new buffer and drops the old one.
     */
    method Replace<T>(k: Kind, o: Buf<T>, m: Mutation<T>) returns (r: Checked<Buf<T>>)
      requires Valid() && BufValid(k, wide, o) && Allocation(o) <= live && !m.Panics?
      modifies this
      ensures Valid() && old(next) <= next
      ensures r.Abort? ==> r.panic == CapacityOverflow && live == old(live) && frees == old(frees)
      ensures r.Ok? ==> r.value.data == m.data && BufValid(k, wide, r.value)
      ensures r.Ok? ==> Allocation(r.value) <= live && live - Allocation(r.value) == old(live) - Allocation(o)
      ensures r.Ok? ==> forall a | a in Allocation(r.value) :: a in Allocation(o) || old(Unused(a))
      ensures r.Ok? && r.value.cap != o.cap ==> Allocation(o) !! live && (r.value.cap != 0 ==> old(Unused(r.value.addr)))
      ensures m.Returns? && k != CStr && r.Ok? ==> r.value.cap >= o.cap
      ensures m.Rebuilds? ==> (r.Ok? <==> RebuiltCapacity(k, m) <= IsizeMax(wide))
      ensures m.Rebuilds? && r.Ok? ==> r.value.cap == RebuiltCapacity(k, m)
    {
      if k == CStr || m.Rebuilds? {
        var c := if k == CStr then |m.data| + 1 else |m.data| + m.spare;
        if c > IsizeMax(wide) {
          return Abort(CapacityOverflow);
        }
        var n := Allocate(m.data, c);
        Release(o);
        return Ok(n);
      }
      var cleared := Buf(o.addr, [], o.cap);
      var g := PushSlice(cleared, m.data);
      if g.Abort? {
        return Abort(g.panic);
      }
      return Ok(g.value);
    }
  }
}
