/**
 * The parts of a parsed Rust source file that the declaration-tree builder
 * looks at (an abstraction of `syn::Item` and friends), and the file system
 * it reads: paths as component sequences, the set of paths that exist and
 * the outcome of reading and parsing each file.
 */
module Syntax {
  import opened Wrappers

  /** `syn::Visibility`: `pub`, `pub(<path>)` / `pub(in <path>)`, or nothing
      written. `Restricted` keeps the identifiers of the path's segments. */
  datatype Vis = Public | Restricted(segments: seq<string>) | Inherited

  /** `syn::Type`, as far as the self type of an `impl` block matters: a path
      type keeps its segment identifiers, every other form of type is `OtherType`. */
  datatype Ty = PathType(segments: seq<string>) | OtherType

  /** An item of an `impl` block: a method, or anything else (consts, types, macros). */
  datatype ImplItem = ImplFn(ident: string, vis: Vis, isAsync: bool) | ImplOther

  /** The body of `mod x { ... }`, or its absence in `mod x;`. */
  datatype ModContent = Inline(items: seq<Item>) | External

  /** A top-level or nested item. Every kind of item the builder ignores is `OtherItem`. */
  datatype Item =
    | Struct(ident: string, vis: Vis)
    | Enum(ident: string, vis: Vis)
    | Fn(ident: string, vis: Vis, isAsync: bool)
    | Mod(ident: string, vis: Vis, content: ModContent)
    | Impl(selfTy: Ty, implItems: seq<ImplItem>)
    | OtherItem

  /** A path component, as `std::path::Path::components` yields it. */
  datatype Component = RootDir | CurDir | ParentDir | Normal(name: string)

  type Path = seq<Component>

  /** `path.parent().unwrap_or(Path::new(""))`: drop the last component; a path
      that is empty or ends at the root has no parent, and the empty path is used. */
  function Parent(p: Path): (r: Path)
    ensures |r| <= |p|
    ensures p != [] && p[|p| - 1] != RootDir ==> p == r + [p[|p| - 1]]
    ensures p == [] || p[|p| - 1] == RootDir ==> r == []
  {
    if p == [] || p[|p| - 1] == RootDir then [] else p[..|p| - 1]
  }

  /** `path.file_name()`: the last component when it is a normal name. */
  function FileName(p: Path): (r: Option<string>)
    ensures r.Some? <==> p != [] && p[|p| - 1].Normal?
    ensures r.Some? ==> p[|p| - 1] == Normal(r.value)
  {
    if p != [] && p[|p| - 1].Normal? then Some(p[|p| - 1].name) else None
  }

  /** What reading and parsing one file gives: its items, or a parse error. */
  datatype Source = Parsed(items: seq<Item>) | Unparsable

  /** The file system as the builder sees it. `present` is what `Path::exists`
      answers yes to; a path missing from `files` cannot be read. The two are
      independent: a path may exist and still fail to read. */
  datatype FileSystem = FileSystem(present: set<Path>, files: map<Path, Source>)
}
