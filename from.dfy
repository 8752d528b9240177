// The `From` conversions into the compact Cow (src/from.rs): each is one
// backend constructor call.  Borrowed sources (`&str`, `&String`, `&[T]`,
// `&Vec<T>`) use `CompactCow.Cow.Borrowed`; owned ones (`String`,
// `Box<str>`, `Vec<T>`, `Box<[T]>`) use `CompactCow.Cow.Owned`; the
// conversions out (`String::from(cow)`, `Vec::from(cow)`) are `IntoOwned`.

module Conversions {
  import opened Convert
  import opened Alloc
  import opened Utf8
  import Reference
  import CompactCow
  import StdBackend
  import FromIter

  /** `From<StdCow>`: `Borrowed(b)` becomes `borrowed(b)`, `Owned(o)` becomes `owned(o)`. */
  method FromStdCow<T>(heap: Heap, k: Kind, s: StdBackend.StdCow<T>) returns (c: CompactCow.Cow<T>)
    requires heap.Valid() && StdBackend.ValueValid(k, heap.wide, s) && StdBackend.Owns(s) <= heap.live
    requires s.Borrowed? ==> BorrowedFits(k, heap.wide, |s.b.data|)
    requires s.Owned? ==> OwnedFits(k, heap.wide, s.o.cap)
    ensures fresh(c) && c.Valid() && c.heap == heap && c.kind == k
    ensures c.MakeRef().data == StdBackend.MakeRef(s).data
    ensures s.Borrowed? ==> c.Abs() == Reference.Borrowed(s.b)
    ensures s.Owned? ==> c.Abs() == Reference.Adopt(s.o)
    ensures c.IsOwned() <==> StdBackend.IsOwned(s) && s.o.cap != 0
    ensures c.Owns() == StdBackend.Owns(s)
  {
    if s.Borrowed? {
      c := new CompactCow.Cow.Borrowed(heap, k, s.b);
    } else {
      c := new CompactCow.Cow.Owned(heap, k, s.o);
    }
  }

  /** `From<char>`: `Cow::owned(String::from(c))`, always owned. */
  method FromChar(heap: Heap, ch: char) returns (c: CompactCow.Cow<Byte>)
    requires heap.Valid()
    modifies heap
    ensures fresh(c) && c.Valid() && c.heap == heap && c.kind == Str
    ensures c.IsOwned() && c.Content() == Encode(ch) && Decode(c.Content()) == ch as int
    ensures heap.live == old(heap.live) + c.Owns()
  {
    var e := Encode(ch);
    var o := heap.Allocate(e, |e|);
    c := new CompactCow.Cow.Owned(heap, Str, o);
    DecodeEncode(ch);
  }

  /**
   * `From<[T; N]>`: the array is boxed and turned into a Vec of capacity
   * N, so an empty array gives a borrowed Cow.
   */
  method FromArray<T>(heap: Heap, xs: seq<T>) returns (c: CompactCow.Cow<T>)
    requires heap.Valid() && |xs| < UsizeLimit(heap.wide) && OwnedFits(Slice, heap.wide, |xs|)
    modifies heap
    ensures fresh(c) && c.Valid() && c.heap == heap && c.kind == Slice
    ensures c.Content() == xs
    ensures c.IsOwned() <==> |xs| != 0
    ensures heap.live == old(heap.live) + c.Owns()
  {
    c := FromIter.FromElems(heap, xs);
  }
}
