// Which backend a kind uses on which platform (src/imp/mod.rs), and the
// observation that both backends answer the trait's queries alike.
//
// In the source the trait `imp::Cow` fixes the operation set; here the two
// backends are the classes `CompactCow.Cow` and `StdBackend.EnumCow`, and the
// lemma `SameQueries` says that a compact Cow answers `is_borrowed`,
// `is_owned` and `make_ref` exactly as the std enum it stands for.

module Backends {
  import opened Convert
  import CompactCow
  import StdBackend
  import CowConv

  /**
   * A compilation target: the values of its `target_family` cfg, in the
   * order Cargo lists them, and its `target_os`.  `cfg(unix)` and
   * `cfg(windows)` hold when the family list contains that family.
   */
  datatype Target = Target(families: seq<string>, os: string)

  predicate IsUnix(t: Target)
  {
    "unix" in t.families
  }

  predicate IsWindows(t: Target)
  {
    "windows" in t.families
  }

  /** `CARGO_CFG_TARGET_FAMILY`: Cargo joins a multi-valued cfg with commas. */
  function FamilyVar(fs: seq<string>): (v: string)
    ensures |fs| == 1 ==> v == fs[0]
  {
    if |fs| == 0 then ""
    else if |fs| == 1 then fs[0]
    else fs[0] + "," + FamilyVar(fs[1..])
  }

  /** The variable reads exactly "unix" iff unix is the target's only family. */
  lemma FamilyVarIsUnix(fs: seq<string>)
    ensures FamilyVar(fs) == "unix" <==> fs == ["unix"]
  {
    if |fs| >= 2 {
      var v := FamilyVar(fs);
      assert v[|fs[0]|] == ',';
      assert forall i | 0 <= i < |"unix"| :: "unix"[i] != ',';
    }
  }

  /** The backend a kind's `Dairy::Cow` is; `NoImpl` when the kind has no impl on that target. */
  datatype Backend = Compact | StdEnum | NoImpl

  /**
   * The `Dairy::Cow` type of a kind: str and [T] always use the compact
   * backend; CStr, OsStr and Path exist only with the `std` feature; OsStr
   * and Path are compact under `cfg(unix)`, the std enum under
   * `cfg(windows)`, and have no implementation on any other target.  (A
   * target in both families would get two conflicting impls; none exists.)
   */
  function BackendFor(k: Kind, t: Target, std: bool): (r: Backend)
    ensures (k == Str || k == Slice) ==> r == Compact
    ensures k == CStr ==> r == (if std then Compact else NoImpl)
    ensures (k == OsStr || k == Path) ==> (r == Compact <==> std && IsUnix(t))
    ensures (k == OsStr || k == Path) ==> (r == StdEnum <==> std && IsWindows(t) && !IsUnix(t))
    ensures !std ==> (r != NoImpl <==> k == Str || k == Slice)
  {
    match k
    case Str => Compact
    case Slice => Compact
    case CStr => if std then Compact else NoImpl
    case OsStr | Path =>
      if !std then NoImpl
      else if IsUnix(t) then Compact
      else if IsWindows(t) then StdEnum
      else NoImpl
  }

  /**
   * The `os_str_ext` cfg as the build script computes it: the whole family
   * variable compared with "unix", or the target os compared with "wasi".
   */
  predicate OsStrExtAsWritten(t: Target)
  {
    FamilyVar(t.families) == "unix" || t.os == "wasi"
  }

  /** `os_str_ext` as evidently intended: a unix target (any family list containing unix), or wasi. */
  predicate OsStrExt(t: Target)
  {
    IsUnix(t) || t.os == "wasi"
  }

  /** Whether the compact `Convert` impl of a kind is compiled, given whether `os_str_ext` is set. */
  predicate AdapterCompiled(k: Kind, std: bool, osStrExt: bool)
  {
    match k
    case Str => true
    case Slice => true
    case CStr => std
    case OsStr | Path => std && osStrExt
  }

  /** With the intended `os_str_ext`, wherever the compact backend is chosen its adapter exists. */
  lemma CompactHasAdapter(k: Kind, t: Target, std: bool)
    requires BackendFor(k, t, std) == Compact
    ensures AdapterCompiled(k, std, OsStrExt(t))
  {
  }

  /**
   * With the build script as written, the compact backend has its adapter
   * exactly when the kind is not OsStr/Path, or unix is the target's only
   * family, or the os is wasi.
   */
  lemma CompactHasAdapterAsWritten(k: Kind, t: Target, std: bool)
    requires BackendFor(k, t, std) == Compact
    ensures AdapterCompiled(k, std, OsStrExtAsWritten(t)) <==>
      (k != OsStr && k != Path) || t.families == ["unix"] || t.os == "wasi"
  {
    FamilyVarIsUnix(t.families);
  }

  /**
   * As written, a unix target with a second family selects the compact
   * OsStr and Path backends but never compiles their adapter.
   */
  lemma MultiFamilyUnixMissingAdapter(k: Kind, t: Target)
    requires k == OsStr || k == Path
    requires IsUnix(t) && |t.families| >= 2 && t.os != "wasi"
    ensures BackendFor(k, t, true) == Compact && !AdapterCompiled(k, true, OsStrExtAsWritten(t))
  {
    FamilyVarIsUnix(t.families);
  }

  /** The concrete case: emscripten, whose families are unix and wasm. */
  lemma EmscriptenMissingAdapter()
    ensures BackendFor(OsStr, Target(["unix", "wasm"], "emscripten"), true) == Compact
    ensures !AdapterCompiled(OsStr, true, OsStrExtAsWritten(Target(["unix", "wasm"], "emscripten")))
  {
    MultiFamilyUnixMissingAdapter(OsStr, Target(["unix", "wasm"], "emscripten"));
  }

  /** On a wasi target outside the unix and windows families the byte adapter for OsStr is compiled although no backend uses it. */
  lemma WasiAdapterUnused(t: Target)
    requires t.os == "wasi" && !IsUnix(t) && !IsWindows(t)
    ensures AdapterCompiled(OsStr, true, OsStrExtAsWritten(t)) && BackendFor(OsStr, t, true) == NoImpl
  {
  }

  /** A compact Cow answers the trait's queries as the std Cow of the enum value it stands for. */
  lemma SameQueries<T>(c: CompactCow.Cow<T>)
    requires c.Valid()
    ensures c.IsOwned() == StdBackend.IsOwned(CowConv.ToStd(c.Abs()))
    ensures c.IsBorrowed() == StdBackend.IsBorrowed(CowConv.ToStd(c.Abs()))
    ensures c.MakeRef() == StdBackend.MakeRef(CowConv.ToStd(c.Abs()))
  {
  }
}
