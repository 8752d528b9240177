# dairy: a verified model of the compact clone-on-write pointer

`dairy` provides a `Cow` that holds either a borrowed view or an owned buffer
(`String`, `Vec<T>`, `CString`, `OsString`, `PathBuf`). Its compact backend
stores only a pointer and an *extent*. On 64-bit targets the extent is a
single word: the length in its low half and the capacity in its high half.
There is no separate tag. A Cow is owned exactly when its capacity is
non-zero. This project models that codec and the per-kind adapters that
split a view or a buffer into `(ptr, extent)` and rebuild it. It also models
the compact Cow as an object over a heap of allocations, the std-enum
backend used elsewhere, and the operations built on top: `+=`, `extend`,
`from_iter`, comparisons and conversions.

The crate's public enum `Cow { Borrowed(&T), Owned(T::Owned) }`
(`Reference.Cow`) is the abstract value. `CompactCow.Cow.Abs()` says which enum
value a compact Cow stands for, and every operation is stated against it. The
heap (`Alloc.Heap`) has two ghost fields: the set of live allocations and a
log of every free. Its invariant says three things:

- an allocated address is either live or freed;
- no address is freed twice;
- freed addresses are never handed out again.

The scenario methods use this invariant to show that each owned allocation
is freed exactly once. This covers `apply` when its closure panics, and
`into_owned`, `clone` and `drop`.

Modules, in dependency order:

- `Bits`: usize bit operations (`&`, `|`, `<<`, `>>`) as arithmetic on naturals, with their laws.
- `Panics`: the panics of the modelled code, as values.
- `Codec`: `small::Extent` and `medium::Extent` (src/imp/compact/extent.rs), their identical older copy (src/extra.rs), and the legacy checked `Extra` (src/convert.rs).
- `Convert`: the kinds, views, buffers, extents and the `Convert` adapters (src/imp/compact/convert.rs, src/convert.rs).
- `Alloc`: the allocator and the std buffer operations the crate uses (`to_owned`, `reserve`, `push_str`).
- `Reference`: the crate's enum, used as the abstract value.
- `CompactCow`: the compact backend (src/imp/compact/mod.rs).
- `StdBackend`: the backend over `alloc::borrow::Cow` (src/imp/default.rs, src/imp/orig.rs).
- `CowConv`: the conversions between the crate's enum and std's (src/kinds/cow.rs).
- `Backends`: which backend each kind uses on each platform (src/imp/mod.rs, build.rs).
- `Seqs` and `Utf8`: concatenation helpers, and the UTF-8 encoding a pushed `char` contributes.
- `Extend`, `FromIter`, `Cmp`, `Conversions`: src/extend.rs, src/from_iter.rs, src/cmp.rs and src/from.rs on the compact Cow.
- `StrKind`: src/kinds/str.rs, on the crate's enum.

## Model

| member | source | states |
|---|---|---|
| Codec.SmallLen | src/imp/compact/extent.rs:37-39 | the length is the low half-word of the extent, so it is never above LOWER (also src/extra.rs:35-37: the older copy: length bounded by LOWER) |
| Codec.SmallCapacity | src/imp/compact/extent.rs:42-44 | the capacity is the high half-word of the extent, so it is never above LOWER (also src/extra.rs:40-42: the older copy: capacity bounded by LOWER) |
| Codec.FitsLow | src/imp/compact/extent.rs:30 | `x & LOWER == x` holds exactly when x fits the low half-word |
| Codec.SmallBorrowed | src/imp/compact/extent.rs:23-26 | a borrowed length that fits the low half reads back unchanged, with capacity 0 (not owned) (also src/extra.rs:21-24: the older copy of the codec: same unchecked borrowed length) |
| Codec.SmallOwned | src/imp/compact/extent.rs:29-34 | owned succeeds iff cap fits the low half, and otherwise panics "capacity out of bounds" rather than truncating; the word is cap·2^32 + len, and len and cap read back unchanged (also src/extra.rs:27-32: the older copy: same capacity assert and packing) |
| Codec.OwnedWord | src/imp/compact/extent.rs:31 | `(cap << SHIFT) \| len` is the sum cap·2^32 + len when both halves fit, and both read back |
| Codec.OwnedWithinCapacity | src/imp/compact/extent.rs:30-31 | for an owned buffer (len ≤ cap), passing the capacity assert is enough for both len and cap to round-trip (also src/extra.rs:27-42: the older copy: for len ≤ cap, a successful owned round-trips len and capacity) |
| Codec.UncheckedBorrowedMisclassified | src/imp/compact/extent.rs:23-26 | as written, a borrowed length above LOWER gives a non-zero capacity (misread as owned) and a wrong length |
| Codec.MisclassifiedAtHalf | src/imp/compact/extent.rs:23-26 | the borrowed length 2^32 reads back as capacity 1, length 0 |
| Codec.MediumBorrowed | src/imp/compact/extent.rs:60-63 | the two-field extent of a borrowed value stores the length and capacity 0 |
| Codec.MediumOwned | src/imp/compact/extent.rs:66-69 | the two-field extent stores length and capacity verbatim, with no bound (also src/extra.rs:58-67: the older two-field extent: fields stored verbatim) |
| Codec.CheckedBorrowed | src/convert.rs:53-57 | on a 64-bit target, the legacy borrowed succeeds iff the length fits the low half, panics "length out of bounds" otherwise, and reads back as that length with capacity 0 |
| Codec.CheckedOwned | src/convert.rs:60-66 | on a 64-bit target, the legacy owned succeeds iff both length and capacity fit; it checks the length first, and otherwise round-trips both |
| Codec.OwnedAgree | src/convert.rs:60-66 | on a 64-bit target and for an owned buffer (len ≤ cap) the legacy and current (src/imp/compact/extent.rs:29-34) owned accept the same buffers and pack them alike; a rejected buffer panics "length out of bounds" in the legacy one when len > LOWER, "capacity out of bounds" in the current one |
| Convert.Default | src/imp/compact/convert.rs:30 | the default extent, for every kind and target, is a not-owned extent of the kind's shape, with length 0 where the extent stores a length; for CStr it is just `false`, and the length then comes from the bytes the pointer addresses |
| Convert.SliceUnmakeBorrowed | src/imp/compact/convert.rs:64-66 | str, the compact adapter corrected with a length check: on a 64-bit target the small extent with the length assert of the legacy `Extra::borrowed` (src/convert.rs:54), elsewhere the two-field extent; it succeeds iff the length fits (always off 64-bit, ≤ LOWER on it), and then the parts are not owned, their length is the view's length, and make_ptr gives the view back (also src/imp/compact/convert.rs:90-92, src/imp/compact/extent.rs:60-63: [T]: as for str; the two-field borrowed extent holds any length) |
| Convert.UncheckedSliceUnmakeBorrowed | src/imp/compact/convert.rs:64-66 | str, compact backend as written (unchecked `borrowed`): the same parts as the checked adapter whenever the length fits; a longer length on a 64-bit target gives parts that read back as owned with a different length (also src/imp/compact/convert.rs:90-92: [T]: as for str) |
| Convert.SliceUnmakeOwned | src/imp/compact/convert.rs:68-72 | str: succeeds iff the capacity fits; the parts are owned iff cap ≠ 0; make_owned gives back the same buffer, and make_ptr gives its view (also src/imp/compact/convert.rs:94-98: [T]: as for str) |
| Convert.CStrUnmakeBorrowed | src/imp/compact/convert.rs:117-121 | CStr: the extent is `false` (not owned), and make_ptr gives the view back |
| Convert.CStrUnmakeOwned | src/imp/compact/convert.rs:122-126 | CStr: the extent is `true` (owned), make_owned gives the CString back, and make_ptr gives its view (also src/convert.rs:192-201: legacy CStr: the extent is `false` for borrowed and `true` for owned) |
| Convert.UnmakeBorrowed | src/imp/compact/convert.rs:59-189 | for every kind, with the corrected checked codec for str and [T] (see Findings): succeeds iff the length fits, else panics "length out of bounds"; the parts are valid and not owned, and make_ptr gives the view back |
| Convert.UnmakeOwned | src/imp/compact/convert.rs:59-189 | for every kind: succeeds iff the capacity fits, else panics "capacity out of bounds"; the parts are owned iff cap ≠ 0, and make_owned gives the buffer back |
| Convert.MakePtr | src/imp/compact/convert.rs:74-77 | make_ptr keeps the pointer's address |
| Convert.MakeOwned | src/imp/compact/convert.rs:79-82 | the rebuilt buffer's view is what make_ptr gives for the same parts |
| Convert.OwnedPartsBuf | src/imp/compact/convert.rs:52-57 | parts whose extent is owned (capacity ≠ 0) rebuild into a valid buffer that owns an allocation |
| Convert.DelegatesToBytes | src/imp/compact/convert.rs:139-189 | OsStr and Path produce exactly the [u8] adapter's parts and values (also src/convert.rs:219-279: legacy: OsStr delegates to [u8], and Path delegates to OsStr) |
| Reference.Adopt | src/imp/compact/convert.rs:52-57 | a compact Cow built from a buffer holds its content, and is owned iff the capacity is non-zero |
| CompactCow.Cow.Borrowed | src/imp/compact/mod.rs:36-43 | `borrowed(b)` stands for `Borrowed(b)` and owns nothing (also src/from.rs:45-64, src/from.rs:98-117: `&str` and `&String` give a borrowed Cow of that content; `&[T]` and `&Vec<T>` give a borrowed Cow) |
| CompactCow.Cow.Owned | src/imp/compact/mod.rs:46-53 | `owned(o)` stands for `Owned(o)` when o's capacity is non-zero, and for a borrowed view of o otherwise; it owns o's allocation (also src/from.rs:52-71, src/from.rs:105-124: `String` and `Box<str>` give an owned Cow of that buffer; `Vec<T>` and `Box<[T]>` give an owned Cow of that buffer) |
| CompactCow.Cow.FieldCopy | src/imp/compact/mod.rs:112 | the field copy keeps pointer and extent and owns nothing |
| CompactCow.Cow.IsBorrowed | src/imp/compact/mod.rs:56-58 | true iff the value is `Borrowed`; always the negation of IsOwned |
| CompactCow.Cow.IsOwned | src/imp/compact/mod.rs:61-63 | true iff the value is `Owned` |
| CompactCow.Cow.MakeRef | src/imp/compact/mod.rs:66-69 | make_ref is the enum's deref, for both states |
| CompactCow.Cow.IntoOwned | src/imp/compact/mod.rs:72-79 | owned: the same buffer, with the drop suppressed and nothing freed; borrowed: a fresh copy of exactly the content (also src/from.rs:31-36, src/from.rs:84-89: `String::from(cow)` is `into_owned`; `Vec::from(cow)` is `into_owned`) |
| CompactCow.Cow.BeginApply | src/imp/compact/mod.rs:86-95 | before the closure runs, self owns nothing (an owned extent is reset to the default), and the local buffer holds the content and the allocation self held |
| CompactCow.Cow.EndApply | src/imp/compact/mod.rs:97-99 | the write-back succeeds iff the capacity fits; then self stands for the buffer adopted, and otherwise it panics and leaves self unchanged (the buffer leaks) |
| CompactCow.Cow.Apply | src/imp/compact/mod.rs:82-100 | the content becomes f(old content) and the state is that of the mutated buffer; a closure that rebuilds the buffer leaves exactly the capacity it asked for; a panic in f frees the buffer through the local only, self owns nothing afterwards, keeps its pointer, and holds the default (borrowed) extent if it was owned and its old extent if it was borrowed; an owned str or [T] is then empty, while an owned CStr keeps reading the bytes of the CString just freed (see Findings); a rebuilt buffer too large for the extent is a fresh allocation |
| CompactCow.Cow.ApplyResetting | src/imp/compact/mod.rs:82-100 | `apply` with the panic path corrected: on completion as `apply`; when f panics on an owned Cow, self is borrowed, empty, and addresses no allocation, live or freed; a borrowed one is unchanged |
| CompactCow.PanicLeavesCStrDangling | src/imp/compact/mod.rs:86-96 | as written, after f panics on an owned `Cow<CStr>`, self is valid and borrowed with its old content, but its pointer addresses an allocation that has been freed |
| CompactCow.Cow.Clone | src/imp/compact/mod.rs:108-114 | borrowed: a field copy with the same pointer and extent; owned: a distinct fresh allocation with equal content |
| CompactCow.Cow.Drop | src/imp/compact/mod.rs:122-126 | frees the allocation exactly when the Cow is owned, and logs that one free |
| CompactCow.ApplyThenDrop | src/imp/compact/mod.rs:86-96 | apply then drop frees the original allocation exactly once in every outcome: f returns, f panics, or the result is too large for the extent |
| CompactCow.IntoOwnedThenDrop | src/imp/compact/mod.rs:72-79 | after into_owned, the allocation is freed exactly once, by the buffer's own drop |
| CompactCow.DropBoth | src/imp/compact/mod.rs:122-126 | dropping two Cows frees exactly the allocations the two own |
| CompactCow.CloneThenDropBoth | src/imp/compact/mod.rs:108-126 | an owned Cow and its clone own different allocations, and each is freed exactly once |
| StdBackend.IsBorrowed | src/imp/default.rs:23-25 | true iff the variant is `Borrowed` |
| StdBackend.IsOwned | src/imp/default.rs:28-30 | true iff the variant is `Owned`; the exact negation of IsBorrowed (also src/imp/orig.rs:22-29: the two predicates are exclusive and exhaustive) |
| StdBackend.MakeRef | src/imp/orig.rs:32-37 | `Borrowed(b)` gives b; `Owned(o)` gives the view of o (also src/imp/default.rs:33-35: deref of the std Cow) |
| StdBackend.IntoOwned | src/imp/orig.rs:40-45 | `Owned(o)` gives o itself; `Borrowed(b)` gives a fresh copy of b (also src/imp/default.rs:38-40: std's into_owned) |
| StdBackend.EnumCow.Borrowed | src/imp/default.rs:13-15 | `borrowed(b)` is the `Borrowed(b)` variant (also src/imp/orig.rs:12-14: `borrowed(b)` is the `Borrowed(b)` variant) |
| StdBackend.EnumCow.Owned | src/imp/default.rs:18-20 | `owned(o)` is the `Owned(o)` variant (also src/imp/orig.rs:17-19: `owned(o)` is the `Owned(o)` variant) |
| StdBackend.EnumCow.Apply | src/imp/default.rs:43-55 | on completion the value is `Owned` and holds f(old content): a borrowed value is cloned then mutated, an owned one keeps its allocation or gets a fresh one, never an old address; a rebuilding closure leaves exactly the capacity it asked for; when f panics the value is unchanged and nothing leaks |
| StdBackend.EnumCow.Drop | src/imp/default.rs:53 | dropping frees the buffer of an `Owned` value |
| StdBackend.ApplyThenDrop | src/imp/default.rs:43-55 | an owned allocation of the std backend is freed exactly once across apply and drop, whatever apply does |
| CowConv.ToStd | src/kinds/cow.rs:10-15 | variant maps to the same variant: is_owned preserved, same deref, and FromStd undoes it |
| CowConv.FromStd | src/kinds/cow.rs:23-28 | variant maps to the same variant: is_owned preserved, same deref |
| CowConv.StdRoundTrip | src/kinds/cow.rs:5-29 | std → crate → std is the identity |
| Backends.BackendFor | src/imp/mod.rs:31-42 | str and [T] always use the compact backend; CStr does once the std feature is on, and has no impl (`NoImpl`) without it; without std only str and [T] have an impl (also src/imp/mod.rs:44-54, src/imp/mod.rs:56-66: OsStr: compact under `cfg(unix)` (unix among the target's families) and the std enum under `cfg(windows)`, with no impl elsewhere or without std; Path: the same platform split as OsStr) |
| Backends.FamilyVar | build.rs:3-5 | `CARGO_CFG_TARGET_FAMILY` as Cargo sets it: the target's families joined with commas, just the family for a single-family target |
| Backends.FamilyVarIsUnix | build.rs:9 | the variable equals "unix" exactly when unix is the target's only family |
| Backends.CompactHasAdapter | build.rs:8-10 | with `os_str_ext` as intended (unix anywhere in the families, or wasi), wherever the compact backend is chosen its `Convert` adapter is compiled (also src/imp/compact/convert.rs:139, src/imp/compact/convert.rs:165: the OsStr and Path adapters exist only under `os_str_ext`) |
| Backends.CompactHasAdapterAsWritten | build.rs:8-10 | with the build script as written, a chosen compact backend has its adapter iff the kind is not OsStr/Path, or unix is the only family, or the os is wasi |
| Backends.MultiFamilyUnixMissingAdapter | build.rs:9 | as written, any unix target with a second family and not wasi selects the compact OsStr and Path backends without compiling their adapter (also src/imp/mod.rs:44-48: `cfg(unix)` selects the compact backend) |
| Backends.EmscriptenMissingAdapter | build.rs:9 | the concrete case: families unix and wasm, os emscripten |
| Backends.WasiAdapterUnused | build.rs:8-10 | on a wasi target outside the unix and windows families the OsStr byte adapter is compiled, but no backend uses it |
| Backends.SameQueries | src/imp/mod.rs:12-22 | the compact backend answers is_owned, is_borrowed and make_ref exactly as the std backend does for the enum value it stands for |
| Extend.PushAll | src/extend.rs:23-26 | the closure: reserve, then push each item; the content becomes old ++ concat(items) whatever `lower` is; the allocation stays or is fresh; on overflow the buffer is handed back for dropping |
| Extend.ExtendWith | src/extend.rs:16-27 | extend_str: the content becomes old ++ concat(items), the state is that of the resulting buffer, and non-empty content is owned (also src/extend.rs:106-117: extend_os_str: byte concatenation, as for str) |
| Extend.Encodings | src/extend.rs:69-72 | one slice per char, each its UTF-8 encoding |
| Extend.EncodingsConcat | src/extend.rs:69-72 | pushing the chars one by one appends exactly the encoding of the whole sequence |
| Extend.ExtendChars | src/extend.rs:64-74 | the content becomes old ++ the UTF-8 encoding of each char, in order (also src/extend.rs:76-81: `Extend<&char>` is the extend by the copied chars) |
| Extend.ExtendElems | src/extend.rs:87-99 | the content becomes old ++ the elements, by value or by reference |
| FromIter.FromSlices | src/from_iter.rs:21-40 | over `&str`, `&String` and `Box<str>` items, `Cow::owned(String::from_iter(..))` holds the concatenation, and is owned iff it is non-empty, since the collected buffer has exactly its length as capacity (also src/from_iter.rs:99-121: OsStr over `&OsStr` and `&OsString` items: the same law as for str) |
| FromIter.FromStrings | src/from_iter.rs:28-33 | over owned `String` items, the first item's buffer is kept and the others pushed onto it: the content is the concatenation; the Cow is owned whenever the first item had capacity or the result is non-empty, so an empty result can be owned; the first buffer's allocation passes to the Cow; a growth past isize::MAX panics "capacity overflow" and frees the buffer; a capacity too large for the extent panics "capacity out of bounds" (also src/from_iter.rs:107-113: OsStr over `OsString` items: the same) |
| FromIter.FromChars | src/from_iter.rs:63-75 | from chars: the concatenated UTF-8 encodings, owned iff at least one char |
| FromIter.FromElems | src/from_iter.rs:81-93 | exactly the iterated elements in order, owned iff non-empty |
| FromIter.FromCows | src/from_iter.rs:42-54 | no items gives a fresh, empty, borrowed Cow; otherwise the result is the first Cow, extended by the rest (also src/from_iter.rs:124-136: OsStr: the same fold) |
| Cmp.CompareEqual | src/cmp.rs:40-48 | equal contents are exactly those whose ordering is Equal |
| Cmp.CompareReverse | src/cmp.rs:40-48 | swapping the operands reverses the ordering |
| Cmp.CompareTransitive | src/cmp.rs:40-48 | Less is transitive |
| Cmp.PrefixFirst | src/cmp.rs:40-48 | a proper prefix orders first |
| Cmp.Eq | src/cmp.rs:17-26 | two Cows are equal iff their contents are, whatever their states and across byte kinds (a `Cow<str>` and a `Cow<OsStr>`) |
| Cmp.EqValue | src/cmp.rs:57-69 | a Cow equals a plain value or reference iff its content equals it |
| Cmp.Cmp | src/cmp.rs:30-48 | Cows order as their contents, and Equal coincides with Eq |
| Conversions.FromStdCow | src/from.rs:14-25 | std `Borrowed(b)` becomes `borrowed(b)` and `Owned(o)` becomes `owned(o)`, with the content preserved |
| Conversions.FromChar | src/from.rs:73-78 | an owned Cow holding exactly the char's encoding, which decodes back to the char |
| Conversions.FromArray | src/from.rs:126-131 | the same elements, owned iff the array is non-empty |
| StrKind.StrCow.Borrowed | src/kinds/str.rs:40-45 | `From<&str>` gives `Borrowed` |
| StrKind.StrCow.Owned | src/kinds/str.rs:47-52 | `From<String>` gives `Owned` |
| StrKind.StrCow.IntoString | src/kinds/str.rs:12-17 | `String::from(cow)`: the owned buffer as it is, or a fresh copy of the borrowed one |
| StrKind.StrCow.AddAssignStr | src/kinds/str.rs:134-147 | empty self becomes `Borrowed(rhs)`; an empty rhs changes nothing, state included; otherwise the content is lhs ++ rhs, the state is `Owned`, and a borrowed lhs is promoted into a buffer of capacity ≥ \|lhs\| + \|rhs\|; every allocation is accounted for |
| StrKind.StrCow.PushOnto | src/kinds/str.rs:139-144 | the promotion and push: the content is lhs ++ rhs, owned, with a promoted buffer of capacity ≥ \|lhs\| + \|rhs\| |
| StrKind.StrCow.AddAssignCow | src/kinds/str.rs:149-162 | empty self takes rhs wholesale, state included; otherwise the `+= &str` rules apply to rhs's content, and rhs is dropped: a borrowed non-empty self promoted by a non-empty rhs gets a fresh buffer with room for both, and a failed push leaves an owned self unchanged |
| StrKind.StrCow.Drop | src/lib.rs:12-21 | dropping the enum frees an `Owned` buffer |
| StrKind.Add | src/kinds/str.rs:114-122 | `a + b` is `a += b` returning a |
| StrKind.AddCow | src/kinds/str.rs:124-132 | `a + cow` is `a += cow` returning a |
| StrKind.FromChar | src/kinds/str.rs:33-38 | `Owned` of exactly the char's UTF-8 encoding, which decodes back to the char |
| StrKind.FromStrs | src/kinds/str.rs:72-108 | every `FromIterator` impl gives `Owned` holding the items' concatenation |
| Utf8.Encode | src/kinds/str.rs:33-38 | a char encodes to 1 to 4 bytes, and to one byte iff it is ASCII |
| Utf8.DecodeEncode | src/kinds/str.rs:33-38 | decoding a char's encoding gives the char back |
| Seqs.ConcatAppend | src/extend.rs:25 | pushing two runs of items appends their concatenations |
| Seqs.ConcatSingletons | src/extend.rs:90-97 | pushing elements one at a time appends exactly those elements |
| Alloc.Grown | src/extend.rs:24 | the capacity a growing buffer asks for covers the requirement, and at least doubles |
| Alloc.Heap.Allocate | src/imp/compact/mod.rs:94 | a new buffer: capacity 0 allocates nothing, otherwise a fresh address becomes live |
| Alloc.Heap.Release | src/imp/compact/mod.rs:124 | a buffer's drop frees its allocation (if any) and logs that one free |
| Alloc.Heap.FreedExactlyOnce | src/imp/compact/mod.rs:122-126 | an allocation that is no longer live has been freed exactly once |
| Alloc.Heap.ToOwned | src/imp/compact/mod.rs:77 | `to_owned` copies the view into a fresh buffer of exactly its length (plus the nul for a CString) |
| Alloc.Heap.Reserve | src/extend.rs:24 | keeps the buffer when its spare room suffices; otherwise moves to a grown, fresh allocation and frees the old one; panics "capacity overflow" beyond isize::MAX |
| Alloc.Heap.PushSlice | src/extend.rs:25 | push_str appends the slice, after reserving room for it |
| Alloc.Heap.Replace | src/imp/compact/mod.rs:96 | a closure's effect on the buffer: the buffer then holds exactly the new content; an in-place edit (clear then push) never shrinks the capacity, while a rebuild has exactly the capacity it asked for and panics "capacity overflow" iff that exceeds isize::MAX; every address it holds is old or fresh, and when the capacity changes the old allocation is freed |
| Alloc.RebuiltCapacity | src/imp/compact/mod.rs:96 | a rebuilt buffer's capacity holds its content: content plus the requested spare room, and content plus the nul for a CString |

## Left out

- Pointer arithmetic, `NonNull`, `ManuallyDrop` and memory layout: a pointer is an address together with the elements it addresses. Rust's aliasing rules make that sound, and the model takes them as given.
- Lifetimes, `PhantomData`, `Send`/`Sync`: these are compile-time facts with no behaviour. `size_of` is not modelled either.
- Zero-sized element types: here every buffer has the exact capacity it was given. For a zero-sized `T`, `Vec` reports capacity usize::MAX, so on a 64-bit target `Cow<[()]>::owned(vec![(); 3])` panics "capacity out of bounds" in the compact owned path. The model gives it an ordinary extent.
- Unwinding: a panic is a returned value (`Checked`, `Outcome`). The closure given to `apply` is a function from the old content to either a new content or a panic. It is taken to panic before it touches the buffer. A closure that returns either edits in place (`Mutation.Returns`: clear, then push the new content) or rebuilds the buffer (`Mutation.Rebuilds`: a new buffer of exactly the content plus a requested spare room, with the old buffer dropped). Other closures that shrink or reserve capacity (`shrink_to`, `reserve_exact` followed by edits) are not distinguished.
- The `imp::Cow` trait is not a declaration here. Its operations are the members of `CompactCow.Cow` and `StdBackend`; `Backends.SameQueries` relates the two backends.
- `src/imp/mod.rs` names its modules `better` and `orig`. Here they are the compact backend and the std-enum backends of src/imp/default.rs and src/imp/orig.rs.
- `apply` is not in the trait at src/imp/mod.rs:12-22, though both backends implement it. It is modelled on both.
- `Extent: Default` is required at src/imp/compact/convert.rs:30 but not derived at src/imp/compact/extent.rs:18. `Convert.Default` defines it as length 0, capacity 0 (`false` for CStr), that is, an empty borrowed extent.
- `Cow::default()` is not visible in the source. `FromIter.FromCows` uses the empty borrowed Cow, which both plausible definitions give.
- src/to_boxed.rs, `into_boxed` and the `Box` conversions out (src/kinds/str.rs:19-27, src/from.rs:38-43, src/from.rs:91-96): shrink-to-fit is allocator behaviour in std.
- The Path sections of src/extend.rs and src/from_iter.rs: `PathBuf::push` follows separator rules that live in std.
- Path comparison: std compares paths component by component, so `Cmp.Eq`, `Cmp.EqValue` and `Cmp.Cmp` require non-Path kinds.
- `partial_cmp` (src/cmp.rs:30-38) is `Some` of `cmp` for byte contents, and is not a separate member.
- CStr nul scanning (`CStr::from_ptr`, `CString::from_raw`): a C string's content is all of its addressed bytes, and its capacity counts the nul.
- UTF-8 validity of `str` content and `str::from_utf8`: content is bytes.
- Serde glue (src/serde.rs, src/serde/de.rs, src/serde/ser.rs).
- The thin delegations: src/kinds/slice.rs, os_str.rs, path.rs, c_str.rs; src/from/*.rs; src/from_str.rs; src/as_ref.rs. They are the constructor calls src/from.rs already shows.
- src/imp/sealed.rs is the closed datatype `Convert.Kind`.
- The benches: they are a timing harness.
- Allocation failure (`handle_alloc_error`) is not modelled: allocation always succeeds.
- Vec's minimum non-zero capacity is not modelled: growth asks for max(2·cap, required).
- Alloc.Heap.Reserve, Alloc.Heap.Replace: the isize::MAX bound is compared with the element count. std compares it with the size in bytes (`Layout::array`, cap · size_of::<T>()), so for `[T]` with elements wider than one byte std reports "capacity overflow" at a smaller count than the model.
- Reallocation is a fresh allocation plus a free. `realloc` keeping the address is not modelled.
- FromIter.FromSlices: the model gives the result of `String::from_iter` over borrowed or boxed items exactly its length as capacity; std's growth sequence inside `from_iter` is not modelled. Over owned `String`/`OsString` items std keeps the first item's buffer, and that case is modelled separately as `FromIter.FromStrings`, where an empty result can be owned.
- `Vec::extend` reserves nothing up front (`Extend.ExtendElems` passes `lower` 0). Std's own size-hint reservation is not modelled; it does not change the content.
- Convert.SliceUnmakeBorrowed, Convert.UnmakeBorrowed: on a 64-bit target the str and [T] borrowed path uses the length assert of the legacy `Extra::borrowed` (src/convert.rs:53-57), which is the corrected codec of the Findings table, not the unchecked compact `borrowed` (src/imp/compact/extent.rs:23-26); on other targets it is the compact two-field extent. The as-written adapter is `Convert.UncheckedSliceUnmakeBorrowed`, and it agrees with the checked one whenever the length fits. The owned path uses the current `Codec.SmallOwned`, which asserts only the capacity; on a 64-bit target `Codec.OwnedAgree` shows that the legacy `owned` accepts the same buffers and differs only in its panic message.
- The legacy `Extra` of src/convert.rs on targets other than 64-bit, and the legacy str and [T] adapters built on it (src/convert.rs:124-183): that codec has no per-target split and halves the word on every target, so on a 32-bit target it packs two 16-bit halves and panics at `borrowed` and `owned` above 0xFFFF. Only its 64-bit instance (`Codec.CheckedBorrowed`, `Codec.CheckedOwned`) is modelled, as the length check the compact 64-bit codec lacks.
- CompactCow.Cow.Borrowed and CompactCow.Cow.Owned require their extent to be encodable. The panic of an oversized length or capacity is stated on `Convert.UnmakeBorrowed`, `Convert.UnmakeOwned` and `Codec.CheckedBorrowed`/`Codec.SmallOwned`, and on the write-back inside `apply`. The misclassification that the unchecked borrowed gives is stated on `Convert.UncheckedSliceUnmakeBorrowed` and `Codec.UncheckedBorrowedMisclassified`.
- CompactCow.Cow.Clone: an owned Cow with empty content clones into a buffer of capacity 0, which reads back as borrowed. This follows the source (`owned(to_owned())`), so its ensures states ownership only when `to_owned` allocates. CStr always allocates.
- StdBackend.EnumCow.Apply: for an owned value whose closure grows the buffer past isize::MAX, the model leaves the value unchanged. In std the vector would already be cleared.
- Extend.ExtendWith, FromIter.FromCows: the drops of consumed owned items (`String`, `Box<str>`, `Cow` items) are not modelled; items are their contents.
- StrKind.StrCow.AddAssignStr: when the std pushes overflow, the promotion buffer is freed. Content is unchanged, and the ensures do not state which buffer self then holds for a borrowed lhs.
- Backends.BackendFor: a target is its family list and its os name; no other cfg than `unix`, `windows`, `os_str_ext` and the `std` feature is modelled.
- Cmp.Eq, Cmp.EqValue, Cmp.Cmp: element equality is Dafny's structural equality. A `PartialEq` that is not reflexive (`[f64::NAN]` is unequal to itself) or that relates different element types (`T: PartialEq<U>`, src/cmp.rs:17-26, src/cmp.rs:89-93) is not modelled. `Ord` (src/cmp.rs:40-48) is modelled for byte and integer contents only, not for an arbitrary `T: Ord`. The impls gated on `#[cfg(feature = "unix")]` (src/cmp.rs:9-13, src/cmp.rs:81-86, src/cmp.rs:106-128) are modelled as if that feature were on, and a definition of that feature is not part of this model.

## Findings

| source | as written | input that shows it | evidently intended | confidence | as-written member | corrected member |
|---|---|---|---|---|---|---|
| src/imp/compact/extent.rs:23-26 | `borrowed` stores the length in the extent word with no check that it fits the low 32 bits (src/extra.rs:21-24 is the same) | a borrowed slice of length 2^32 on a 64-bit target: `capacity()` is 1 and `len()` is 0, so the value reads as owned, and drop would free memory it does not own | assert that the length fits the low half-word, as the legacy `Extra::borrowed` at src/convert.rs:53-57 does | not executed | Codec.UncheckedBorrowedMisclassified, Convert.UncheckedSliceUnmakeBorrowed | Codec.CheckedBorrowed, Convert.SliceUnmakeBorrowed |
| src/imp/compact/mod.rs:86-96 | when `f` panics on an owned Cow, `apply` resets only the extent; `self.ptr` still points at the buffer that unwinding drops | a `Cow<CStr>` owning a CString, given a closure that panics, with the panic caught: `make_ptr` is `CStr::from_ptr(ptr)` and reads the freed CString (str and [T] read 0 elements, so they are safe) | point self at an empty borrowed value as well, for example `unmake_borrowed` of an empty C string | plausible; not executed | CompactCow.PanicLeavesCStrDangling, CompactCow.Cow.Apply | CompactCow.Cow.ApplyResetting |
| build.rs:9 | `os_str_ext` is set when `CARGO_CFG_TARGET_FAMILY` equals "unix" as a whole string, but Cargo joins multiple families with commas | a target whose families are unix and wasm (wasm32-unknown-emscripten): `cfg(unix)` selects `better::Cow<OsStr>` (src/imp/mod.rs:44-48), whose `Convert` impl (src/imp/compact/convert.rs:139) is not compiled | set `os_str_ext` when "unix" is one of the comma-separated families | plausible; not executed | Backends.MultiFamilyUnixMissingAdapter, Backends.EmscriptenMissingAdapter | Backends.CompactHasAdapter |
