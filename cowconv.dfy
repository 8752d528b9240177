// The conversions between the crate's enum and `alloc::borrow::Cow`
// (src/kinds/cow.rs): each maps a variant to the variant of the same name.

module CowConv {
  import Reference
  import StdBackend

  /** `From<Cow> for StdCow`. */
  function ToStd<T>(c: Reference.Cow<T>): (s: StdBackend.StdCow<T>)
    ensures StdBackend.IsOwned(s) <==> c.Owned?
    ensures StdBackend.MakeRef(s) == Reference.Deref(c)
    ensures FromStd(s) == c
  {
    match c
    case Borrowed(b) => StdBackend.StdCow.Borrowed(b)
    case Owned(o) => StdBackend.StdCow.Owned(o)
  }

  /** `From<StdCow> for Cow`. */
  function FromStd<T>(s: StdBackend.StdCow<T>): (c: Reference.Cow<T>)
    ensures c.Owned? <==> StdBackend.IsOwned(s)
    ensures Reference.Deref(c) == StdBackend.MakeRef(s)
  {
    match s
    case Borrowed(b) => Reference.Borrowed(b)
    case Owned(o) => Reference.Owned(o)
  }

  lemma StdRoundTrip<T>(s: StdBackend.StdCow<T>)
    ensures ToStd(FromStd(s)) == s
  {
  }
}
