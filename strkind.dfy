// The str-specific impls on the crate's enum `Cow<str>` (src/kinds/str.rs):
// conversions, collecting, and the concatenation rules of `+` and `+=`.
//
// These impls match on the enum's variants, so the object here holds a
// `Reference.Cow` with std's allocation behaviour for the `String` inside.
// Content is bytes; a char contributes its UTF-8 encoding.

module StrKind {
  import opened Panics
  import opened Convert
  import opened Alloc
  import opened Seqs
  import opened Utf8
  import Reference

  class StrCow {
    const heap: Heap
    var value: Reference.Cow<Byte>
    ghost var alive: bool

    ghost predicate Valid()
      reads this, heap
    {
      alive && heap.Valid() && Reference.ValueValid(Str, heap.wide, value) && Reference.Owns(value) <= heap.live
    }

    ghost function Content(): seq<Byte>
      reads this
    {
      Reference.Content(value)
    }

    ghost function Owns(): set<nat>
      reads this
    {
      Reference.Owns(value)
    }

    /** `From<&str>` and `From<&String>`: the `Borrowed` variant. */
    constructor Borrowed(heap: Heap, s: View<Byte>)
      requires heap.Valid() && |s.data| < UsizeLimit(heap.wide)
      ensures Valid() && this.heap == heap && value == Reference.Borrowed(s) && Owns() == {}
    {
      this.heap := heap;
      value := Reference.Borrowed(s);
      alive := true;
    }

    /** `From<String>` and `From<Box<str>>` (whose `into_string` keeps the buffer): the `Owned` variant. */
    constructor Owned(heap: Heap, o: Buf<Byte>)
      requires heap.Valid() && BufValid(Str, heap.wide, o) && Allocation(o) <= heap.live
      ensures Valid() && this.heap == heap && value == Reference.Owned(o) && Owns() == Allocation(o)
    {
      this.heap := heap;
      value := Reference.Owned(o);
      alive := true;
    }

    /** `From<Cow<str>> for String`: `into_owned`. */
    method IntoString() returns (o: Buf<Byte>)
      requires Valid()
      modifies this`alive, heap
      ensures !alive && heap.Valid() && BufValid(Str, heap.wide, o) && o.data == old(Content())
      ensures old(value).Owned? ==> o == old(value).o && heap.live == old(heap.live)
      ensures old(value).Borrowed? ==> o.cap == |o.data| && heap.live == old(heap.live) + Allocation(o)
    {
      match value {
        case Borrowed(b) =>
          o := heap.ToOwned(Str, b);
        case Owned(x) =>
          o := x;
      }
      alive := false;
    }

    /**
     * `*self += rhs` for `rhs: &str`.  An empty self becomes `Borrowed(rhs)`
     * (dropping what it held); an empty rhs changes nothing; otherwise a
     * borrowed self is first copied into a `String` with room for both
     * parts, and rhs is pushed onto the owned string.
     */
    method AddAssignStr(rhs: View<Byte>) returns (out: Outcome)
      requires Valid() && |rhs.data| < UsizeLimit(heap.wide)
      modifies this, heap
      ensures Valid() && old(heap.next) <= heap.next
      ensures |old(Content())| == 0 ==> out.Completed? && value == Reference.Borrowed(rhs)
      ensures |old(Content())| == 0 ==> heap.live == old(heap.live) - old(Owns())
      ensures |old(Content())| != 0 && |rhs.data| == 0 ==> out.Completed? && value == old(value) && heap.live == old(heap.live)
      ensures |old(Content())| != 0 && |rhs.data| != 0 && out.Completed? ==>
        value.Owned? && Content() == old(Content()) + rhs.data
      ensures |old(Content())| != 0 && |rhs.data| != 0 && out.Completed? && old(value).Borrowed? ==>
        value.o.cap >= |old(Content())| + |rhs.data| && old(heap.next) <= value.o.addr
      ensures heap.live - Owns() == old(heap.live) - old(Owns())
      ensures out.Panicked? ==> out.panic == CapacityOverflow && Content() == old(Content())
      ensures out.Panicked? && old(value).Owned? ==> value == old(value)
    {
      if |Reference.Content(value)| == 0 {
        if value.Owned? {
          heap.Release(value.o);
        }
        value := Reference.Borrowed(rhs);
        return Completed;
      }
      if |rhs.data| == 0 {
        return Completed;
      }
      out := PushOnto(rhs.data);
    }

    /**
     * The shared tail of both `+=` impls for a non-empty self and rhs: the
     * promotion of a borrowed self (`String::with_capacity` + `push_str`)
     * followed by `self.to_mut().push_str(rhs)`.
     */
    method PushOnto(r: seq<Byte>) returns (out: Outcome)
      requires Valid() && |Content()| != 0
      modifies this, heap
      ensures Valid() && old(heap.next) <= heap.next
      ensures out.Completed? ==> value.Owned? && Content() == old(Content()) + r
      ensures out.Completed? && old(value).Borrowed? ==>
        value.o.cap >= |old(Content())| + |r| && old(heap.next) <= value.o.addr
      ensures heap.live - Owns() == old(heap.live) - old(Owns())
      ensures out.Panicked? ==> out.panic == CapacityOverflow && Content() == old(Content())
      ensures out.Panicked? && old(value).Owned? ==> value == old(value)
    {
      if value.Borrowed? {
        var lhs := value.b.data;
        var n := |lhs| + |r|;
        if n > IsizeMax(heap.wide) {
          return Panicked(CapacityOverflow);
        }
        var s := heap.Allocate([], n);
        var p := heap.PushSlice(s, lhs);
        if p.Abort? {
          heap.Release(s);
          return Panicked(p.panic);
        }
        value := Reference.Owned(p.value);
      }
      var q := heap.PushSlice(value.o, r);
      if q.Abort? {
        return Panicked(q.panic);
      }
      value := Reference.Owned(q.value);
      out := Completed;
    }

    /**
     * `*self += rhs` for `rhs: Cow<str>`, which is moved in.  An empty self
     * takes rhs wholesale, state included; otherwise the rules of `+= &str`
     * apply to rhs's content, and rhs is dropped afterwards.
     */
    method AddAssignCow(rhs: Reference.Cow<Byte>) returns (out: Outcome)
      requires Valid() && Reference.ValueValid(Str, heap.wide, rhs)
      requires Reference.Owns(rhs) <= heap.live && Reference.Owns(rhs) !! Owns()
      modifies this, heap
      ensures Valid() && old(heap.next) <= heap.next
      ensures |old(Content())| == 0 ==> out.Completed? && value == rhs
      ensures |old(Content())| != 0 && |Reference.Content(rhs)| == 0 ==> out.Completed? && value == old(value)
      ensures |old(Content())| != 0 && |Reference.Content(rhs)| != 0 && out.Completed? ==>
        value.Owned? && Content() == old(Content()) + Reference.Content(rhs)
      ensures |old(Content())| != 0 && |Reference.Content(rhs)| != 0 && out.Completed? && old(value).Borrowed? ==>
        value.o.cap >= |old(Content())| + |Reference.Content(rhs)| && old(heap.next) <= value.o.addr
      ensures heap.live - Owns() == old(heap.live) - old(Owns()) - Reference.Owns(rhs)
      ensures out.Panicked? ==> out.panic == CapacityOverflow && Content() == old(Content())
      ensures out.Panicked? && old(value).Owned? ==> value == old(value)
    {
      if |Reference.Content(value)| == 0 {
        if value.Owned? {
          heap.Release(value.o);
        }
        value := rhs;
        return Completed;
      }
      if |Reference.Content(rhs)| != 0 {
        ghost var before := heap.live - Owns();
        assert Reference.Owns(rhs) <= before;
        out := PushOnto(Reference.Content(rhs));
        assert heap.live - Owns() == before;
      } else {
        out := Completed;
      }
      if rhs.Owned? {
        heap.Release(rhs.o);
      }
    }

    /** `Drop` of the enum: frees the buffer of an `Owned` value. */
    method Drop()
      requires Valid()
      modifies this`alive, heap
      ensures !alive && heap.Valid() && heap.live == old(heap.live) - old(Owns())
    {
      if value.Owned? {
        heap.Release(value.o);
      }
      alive := false;
    }
  }

  /** `self + rhs` for `rhs: &str`: `self += rhs; self`. */
  method Add(lhs: StrCow, rhs: View<Byte>) returns (r: StrCow, out: Outcome)
    requires lhs.Valid() && |rhs.data| < UsizeLimit(lhs.heap.wide)
    modifies lhs, lhs.heap
    ensures r == lhs && r.Valid()
    ensures |old(lhs.Content())| == 0 ==> out.Completed? && r.value == Reference.Borrowed(rhs)
    ensures |old(lhs.Content())| != 0 && |rhs.data| == 0 ==> out.Completed? && r.value == old(lhs.value)
    ensures out.Completed? ==> r.Content() == old(lhs.Content()) + rhs.data
    ensures out.Completed? && |old(lhs.Content())| != 0 && |rhs.data| != 0 ==> r.value.Owned?
  {
    out := lhs.AddAssignStr(rhs);
    r := lhs;
  }

  /** `self + rhs` for `rhs: Cow<str>`: `self += rhs; self`. */
  method AddCow(lhs: StrCow, rhs: Reference.Cow<Byte>) returns (r: StrCow, out: Outcome)
    requires lhs.Valid() && Reference.ValueValid(Str, lhs.heap.wide, rhs)
    requires Reference.Owns(rhs) <= lhs.heap.live && Reference.Owns(rhs) !! lhs.Owns()
    modifies lhs, lhs.heap
    ensures r == lhs && r.Valid()
    ensures |old(lhs.Content())| == 0 ==> out.Completed? && r.value == rhs
    ensures out.Completed? ==> r.Content() == old(lhs.Content()) + Reference.Content(rhs)
    ensures out.Completed? && |old(lhs.Content())| != 0 && |Reference.Content(rhs)| != 0 ==> r.value.Owned?
  {
    out := lhs.AddAssignCow(rhs);
    r := lhs;
  }

  /** `From<char>`: an `Owned` string of exactly that char's encoding. */
  method FromChar(heap: Heap, c: char) returns (s: StrCow)
    requires heap.Valid()
    modifies heap
    ensures fresh(s) && s.Valid() && s.heap == heap && s.value.Owned?
    ensures s.Content() == Encode(c) && Decode(s.Content()) == c as int
    ensures heap.live == old(heap.live) + s.Owns()
  {
    var e := Encode(c);
    var o := heap.Allocate(e, |e|);
    s := new StrCow.Owned(heap, o);
    DecodeEncode(c);
  }

  /**
   * Every `FromIterator` impl of `Cow<str>`, the one over Cow items
   * included (it maps them through `into_owned`): `Owned` of the collected
   * `String`, holding the items' concatenation.
   */
  method FromStrs(heap: Heap, items: seq<seq<Byte>>) returns (s: StrCow)
    requires heap.Valid() && |Concat(items)| < UsizeLimit(heap.wide)
    modifies heap
    ensures fresh(s) && s.Valid() && s.heap == heap && s.value.Owned?
    ensures s.Content() == Concat(items)
    ensures heap.live == old(heap.live) + s.Owns()
  {
    var data := Concat(items);
    var o := heap.Allocate(data, |data|);
    s := new StrCow.Owned(heap, o);
  }
}
