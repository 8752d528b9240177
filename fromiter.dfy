// `FromIterator` for the compact Cow (src/from_iter.rs).
//
// Most impls are `Cow::owned(X::from_iter(iter))`: std collects the items
// into one owned buffer, which the Cow adopts.  The impls over Cow items take
// the first Cow and extend it by the rest.

module FromIter {
  import opened Panics
  import opened Convert
  import opened Alloc
  import opened Seqs
  import opened Utf8
  import CompactCow
  import Extend

  /**
   * `Cow::owned(String::from_iter(items))` (also `OsString::from_iter`):
   * std collects the items into a buffer holding their concatenation, here
   * of exactly that capacity, and the Cow adopts it.  An empty result has
   * capacity 0 and so reads back as borrowed.
   */
  method FromSlices<T>(heap: Heap, k: Kind, items: seq<seq<T>>) returns (c: CompactCow.Cow<T>)
    requires heap.Valid() && k != CStr
    requires |Concat(items)| < UsizeLimit(heap.wide) && OwnedFits(k, heap.wide, |Concat(items)|)
    modifies heap
    ensures fresh(c) && c.Valid() && c.heap == heap && c.kind == k
    ensures c.Content() == Concat(items)
    ensures c.IsOwned() <==> |Concat(items)| != 0
    ensures heap.live == old(heap.live) + c.Owns() && heap.frees == old(heap.frees)
    ensures forall a | a in c.Owns() :: old(heap.next) <= a
  {
    var data := Concat(items);
    var o := heap.Allocate(data, |data|);
    c := new CompactCow.Cow.Owned(heap, k, o);
  }

  /**
   * `Cow::owned(String::from_iter(items))` over owned `String` items (also
   * `OsString`): std keeps the first item's buffer and pushes the others
   * onto it, so the result keeps the first item's spare capacity, and an
   * empty result can be owned.  (No items gives `String::new()`, which is
   * `FromSlices` of no slices.)  The Cow adopts the buffer; a capacity too
   * large for the extent panics in `owned` after the buffer was made
   * `ManuallyDrop`, so it leaks.  The consumed items after the first are
   * their contents here; their drops are not modelled.
   */
  method FromStrings<T>(heap: Heap, k: Kind, first: Buf<T>, rest: seq<seq<T>>)
    returns (c: CompactCow.Cow?<T>, out: Outcome)
    requires heap.Valid() && (k == Str || k == OsStr) && BufValid(k, heap.wide, first) && Allocation(first) <= heap.live
    modifies heap
    ensures heap.Valid() && old(heap.next) <= heap.next
    ensures out.Completed? <==> c != null
    ensures out.Panicked? ==> out.panic == CapacityOverflow || out.panic == CapacityOutOfBounds
    ensures out.Completed? ==> fresh(c) && c.Valid() && c.heap == heap && c.kind == k
    ensures out.Completed? ==> c.Content() == first.data + Concat(rest)
    ensures out.Completed? ==> (first.cap != 0 || |c.Content()| != 0 ==> c.IsOwned())
    ensures out.Completed? ==> heap.live - c.Owns() == old(heap.live) - Allocation(first)
    ensures out == Panicked(CapacityOverflow) ==> heap.live == old(heap.live) - Allocation(first)
  {
    var r, last := Extend.PushAll(heap, k, first, 0, rest);
    if r.Abort? {
      heap.Release(last);
      return null, Panicked(r.panic);
    }
    var o := r.value;
    if !OwnedFits(k, heap.wide, o.cap) {
      return null, Panicked(CapacityOutOfBounds);
    }
    c := new CompactCow.Cow.Owned(heap, k, o);
    out := Completed;
  }

  /** `FromIterator<char>` / `FromIterator<&char>`: the UTF-8 encodings, concatenated. */
  method FromChars(heap: Heap, cs: seq<char>) returns (c: CompactCow.Cow<Byte>)
    requires heap.Valid() && |EncodeAll(cs)| < UsizeLimit(heap.wide) && OwnedFits(Str, heap.wide, |EncodeAll(cs)|)
    modifies heap
    ensures fresh(c) && c.Valid() && c.heap == heap && c.kind == Str
    ensures c.Content() == EncodeAll(cs)
    ensures c.IsOwned() <==> |cs| != 0
    ensures heap.live == old(heap.live) + c.Owns()
  {
    Extend.EncodingsConcat(cs);
    c := FromSlices(heap, Str, Extend.Encodings(cs));
    if cs != [] {
      assert |Encode(cs[|cs| - 1])| >= 1;
      assert EncodeAll(cs) == EncodeAll(cs[..|cs| - 1]) + Encode(cs[|cs| - 1]);
    }
  }

  /** `Cow::owned(Vec::from_iter(iter))` for `Cow<[T]>`: exactly the elements, in order. */
  method FromElems<T>(heap: Heap, xs: seq<T>) returns (c: CompactCow.Cow<T>)
    requires heap.Valid() && |xs| < UsizeLimit(heap.wide) && OwnedFits(Slice, heap.wide, |xs|)
    modifies heap
    ensures fresh(c) && c.Valid() && c.heap == heap && c.kind == Slice
    ensures c.Content() == xs
    ensures c.IsOwned() <==> |xs| != 0
    ensures heap.live == old(heap.live) + c.Owns()
  {
    ConcatSingletons(xs);
    c := FromSlices(heap, Slice, Singletons(xs));
  }

  /**
   * `FromIterator<Cow>`: no items gives `Cow::default()`, the empty borrowed
   * Cow; otherwise the first Cow is extended by the rest and returned.
   */
  method FromCows<T>(heap: Heap, k: Kind, first: CompactCow.Cow?<T>, rest: seq<seq<T>>, lower: nat)
    returns (c: CompactCow.Cow<T>, out: Outcome)
    requires heap.Valid() && k != CStr && k != Path
    requires first != null ==> first.Valid() && first.heap == heap && first.kind == k
    modifies first, heap
    ensures c.Valid() && c.heap == heap && c.kind == k
    ensures first == null ==> fresh(c) && out.Completed? && c.Content() == [] && !c.IsOwned()
    ensures first == null ==> heap.live == old(heap.live)
    ensures first != null ==> c == first
    ensures first != null && out.Completed? ==> c.Content() == old(first.Content()) + Concat(rest)
    ensures first != null && out.Completed? ==> heap.live - c.Owns() == old(heap.live) - old(first.Owns())
  {
    if first == null {
      c := new CompactCow.Cow.Borrowed(heap, k, View(DANGLING, []));
      out := Completed;
    } else {
      c := first;
      ghost var buf;
      out, buf := Extend.ExtendWith(c, rest, lower);
    }
  }
}
