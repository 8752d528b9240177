// Comparisons of the compact Cow (src/cmp.rs): every impl dereferences and
// compares the contents, so the owned/borrowed state never matters.
//
// Byte contents (str, CStr, OsStr) are ordered lexicographically, as Rust
// orders slices: the first differing element decides, and a proper prefix
// comes first.

module Cmp {
  import opened Convert
  import CompactCow
  import opened Utf8

  datatype Ordering = Less | Equal | Greater

  function Reverse(o: Ordering): Ordering
  {
    match o
    case Less => Greater
    case Equal => Equal
    case Greater => Less
  }

  /** `Ord::cmp` of two slices of ordered elements. */
  function Compare(a: seq<int>, b: seq<int>): Ordering
  {
    if a == [] then (if b == [] then Equal else Less)
    else if b == [] then Greater
    else if a[0] < b[0] then Less
    else if a[0] > b[0] then Greater
    else Compare(a[1..], b[1..])
  }

  lemma {:induction false} CompareEqual(a: seq<int>, b: seq<int>)
    ensures Compare(a, b) == Equal <==> a == b
  {
    if a != [] && b != [] && a[0] == b[0] {
      CompareEqual(a[1..], b[1..]);
      assert a == [a[0]] + a[1..] && b == [b[0]] + b[1..];
    }
  }

  lemma {:induction false} CompareReverse(a: seq<int>, b: seq<int>)
    ensures Compare(b, a) == Reverse(Compare(a, b))
  {
    if a != [] && b != [] && a[0] == b[0] {
      CompareReverse(a[1..], b[1..]);
    }
  }

  lemma {:induction false} CompareTransitive(a: seq<int>, b: seq<int>, c: seq<int>)
    requires Compare(a, b) == Less && Compare(b, c) == Less
    ensures Compare(a, c) == Less
  {
    if a != [] && b != [] && c != [] && a[0] == b[0] && b[0] == c[0] {
      CompareTransitive(a[1..], b[1..], c[1..]);
    }
  }

  lemma {:induction false} PrefixFirst(a: seq<int>, b: seq<int>)
    requires |a| < |b| && a == b[..|a|]
    ensures Compare(a, b) == Less
  {
    if a != [] {
      assert a[1..] == b[1..][..|a| - 1];
      PrefixFirst(a[1..], b[1..]);
    }
  }

  /**
   * `PartialEq` between two Cows, also across kinds holding bytes (a
   * `Cow<str>` against a `Cow<OsStr>`): their dereferenced contents are
   * equal.  Path is left out: std compares paths by components.
   */
  function Eq<T(==)>(a: CompactCow.Cow<T>, b: CompactCow.Cow<T>): (r: bool)
    reads a, a.heap, b, b.heap
    requires a.Valid() && b.Valid() && a.kind != Path && b.kind != Path
    ensures r <==> a.Content() == b.Content()
  {
    a.MakeRef().data == b.MakeRef().data
  }

  /** `PartialEq<U>` and `PartialEq<&U>` against a plain value: its content equals the Cow's. */
  function EqValue<T(==)>(a: CompactCow.Cow<T>, v: View<T>): (r: bool)
    reads a, a.heap
    requires a.Valid() && a.kind != Path
    ensures r <==> a.Content() == v.data
  {
    a.MakeRef().data == v.data
  }

  /** `Ord::cmp` between two Cows of bytes: the ordering of their contents. */
  function Cmp(a: CompactCow.Cow<Byte>, b: CompactCow.Cow<Byte>): (r: Ordering)
    reads a, a.heap, b, b.heap
    requires a.Valid() && b.Valid() && a.kind != Path && b.kind != Path
    ensures r == Compare(a.Content(), b.Content())
    ensures r == Equal <==> Eq(a, b)
  {
    CompareEqual(a.MakeRef().data, b.MakeRef().data);
    Compare(a.MakeRef().data, b.MakeRef().data)
  }
}
