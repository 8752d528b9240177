// `Extend` for the compact Cow (src/extend.rs): every impl runs `apply` with
// a closure that reserves the iterator's lower size bound and then pushes
// the items one by one.
//
// The closure is written out here between `BeginApply` and `EndApply`, so
// the pushes are the loop in `PushAll`.  Iterator items are given as the
// sequence of slices they push.

module Extend {
  import opened Panics
  import opened Convert
  import opened Alloc
  import opened Seqs
  import opened Utf8
  import Reference
  import CompactCow

  /**
   * The closure: reserve `lower`, then `push_str` each item in order.  On a
   * panic the buffer is handed back so that its owner can drop it.
   */
  method PushAll<T>(heap: Heap, k: Kind, o: Buf<T>, lower: nat, items: seq<seq<T>>) returns (r: Checked<Buf<T>>, last: Buf<T>)
    requires heap.Valid() && k != CStr && BufValid(k, heap.wide, o) && Allocation(o) <= heap.live
    modifies heap
    ensures heap.Valid() && old(heap.next) <= heap.next
    ensures r.Ok? ==> r.value.data == o.data + Concat(items) && BufValid(k, heap.wide, r.value)
    ensures r.Ok? ==> Allocation(r.value) <= heap.live && heap.live - Allocation(r.value) == old(heap.live) - Allocation(o)
    ensures r.Ok? ==> Allocation(r.value) == Allocation(o) || (r.value.cap != 0 && old(heap.next) <= r.value.addr)
    ensures r.Abort? ==> r.panic == CapacityOverflow && BufValid(k, heap.wide, last)
    ensures r.Abort? ==> Allocation(last) <= heap.live && heap.live - Allocation(last) == old(heap.live) - Allocation(o)
  {
    var g := heap.Reserve(o, lower);
    if g.Abort? {
      return Abort(g.panic), o;
    }
    var cur := g.value;
    var i := 0;
    while i < |items|
      invariant 0 <= i <= |items|
      invariant heap.Valid() && old(heap.next) <= heap.next
      invariant BufValid(k, heap.wide, cur) && Allocation(cur) <= heap.live
      invariant heap.live - Allocation(cur) == old(heap.live) - Allocation(o)
      invariant cur.data == o.data + Concat(items[..i])
      invariant Allocation(cur) == Allocation(o) || (cur.cap != 0 && old(heap.next) <= cur.addr)
    {
      var p := heap.PushSlice(cur, items[i]);
      if p.Abort? {
        return Abort(p.panic), cur;
      }
      ConcatPrefix(items, i);
      cur := p.value;
      i := i + 1;
    }
    assert items[..i] == items;
    return Ok(cur), cur;
  }

  /**
   * `cow.apply(|o| { o.reserve(lower); for item in items { o.push_str(item) } })`:
   * `extend_str` and `extend_os_str`, and every impl built on them.
   */
  method ExtendWith<T>(c: CompactCow.Cow<T>, items: seq<seq<T>>, lower: nat) returns (out: Outcome, ghost buf: Buf<T>)
    requires c.Valid() && c.kind != CStr && c.kind != Path
    modifies c, c.heap
    ensures c.Valid() && old(c.heap.next) <= c.heap.next
    ensures out.Completed? ==> c.Content() == old(c.Content()) + Concat(items)
    ensures out.Completed? ==> c.Abs() == Reference.Adopt(buf) && BufValid(c.kind, c.heap.wide, buf)
    ensures out.Completed? && |c.Content()| != 0 ==> c.IsOwned()
    ensures out.Completed? ==> c.heap.live - c.Owns() == old(c.heap.live) - old(c.Owns())
    ensures out.Completed? ==> forall a | a in Allocation(buf) :: a in old(c.Owns()) || old(c.heap.next) <= a
    ensures out.Panicked? ==> !c.IsOwned() && (out.panic == CapacityOverflow || out.panic == CapacityOutOfBounds)
    ensures out == Panicked(CapacityOverflow) ==> c.heap.live == old(c.heap.live) - old(c.Owns())
    ensures out == Panicked(CapacityOutOfBounds) ==> c.heap.live == old(c.heap.live) - old(c.Owns()) + Allocation(buf)
  {
    var o := c.BeginApply();
    var r, last := PushAll(c.heap, c.kind, o, lower, items);
    if r.Abort? {
      c.heap.Release(last);
      return Panicked(r.panic), last;
    }
    buf := r.value;
    out := c.EndApply(r.value);
  }

  /** The UTF-8 encodings of a sequence of chars, one slice per char. */
  function Encodings(cs: seq<char>): (r: seq<seq<Byte>>)
    ensures |r| == |cs|
    ensures forall i :: 0 <= i < |cs| ==> r[i] == Encode(cs[i])
  {
    if cs == [] then [] else Encodings(cs[..|cs| - 1]) + [Encode(cs[|cs| - 1])]
  }

  lemma {:induction false} EncodingsConcat(cs: seq<char>)
    ensures Concat(Encodings(cs)) == EncodeAll(cs)
  {
    if cs != [] {
      var n := |cs| - 1;
      EncodingsConcat(cs[..n]);
      assert Encodings(cs)[..n] == Encodings(cs[..n]);
    }
  }

  /**
   * `Extend<char>` (and `Extend<&char>`, which copies the chars): reserve
   * the lower bound, then `String::push` each char, i.e. push its UTF-8
   * encoding.
   */
  method ExtendChars(c: CompactCow.Cow<Byte>, cs: seq<char>, lower: nat) returns (out: Outcome, ghost buf: Buf<Byte>)
    requires c.Valid() && c.kind == Str
    modifies c, c.heap
    ensures c.Valid() && old(c.heap.next) <= c.heap.next
    ensures out.Completed? ==> c.Content() == old(c.Content()) + EncodeAll(cs)
    ensures out.Completed? ==> c.Abs() == Reference.Adopt(buf)
    ensures out.Completed? && |c.Content()| != 0 ==> c.IsOwned()
    ensures out.Completed? ==> c.heap.live - c.Owns() == old(c.heap.live) - old(c.Owns())
    ensures out.Panicked? ==> !c.IsOwned()
    ensures out == Panicked(CapacityOverflow) ==> c.heap.live == old(c.heap.live) - old(c.Owns())
  {
    EncodingsConcat(cs);
    out, buf := ExtendWith(c, Encodings(cs), lower);
  }

  /**
   * `Extend<T>` and `Extend<&T>` for `Cow<[T]>`: `Vec::extend` pushes the
   * elements in order (growing as it goes; no lower bound is reserved here).
   */
  method ExtendElems<T>(c: CompactCow.Cow<T>, xs: seq<T>) returns (out: Outcome, ghost buf: Buf<T>)
    requires c.Valid() && c.kind == Slice
    modifies c, c.heap
    ensures c.Valid() && old(c.heap.next) <= c.heap.next
    ensures out.Completed? ==> c.Content() == old(c.Content()) + xs
    ensures out.Completed? ==> c.Abs() == Reference.Adopt(buf)
    ensures out.Completed? && |c.Content()| != 0 ==> c.IsOwned()
    ensures out.Completed? ==> c.heap.live - c.Owns() == old(c.heap.live) - old(c.Owns())
    ensures out.Panicked? ==> !c.IsOwned()
    ensures out == Panicked(CapacityOverflow) ==> c.heap.live == old(c.heap.live) - old(c.Owns())
  {
    ConcatSingletons(xs);
    out, buf := ExtendWith(c, Singletons(xs), 0);
  }
}
