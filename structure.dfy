/**
 * The declaration tree of a crate (src/parser/structure.rs): the node type,
 * the two classifiers, the crate-name fallback, and the specification of what
 * processing an item, a file and a crate does to a parent's children. The
 * imperative builder in module StructureBuilder is proved against these
 * functions; module StructureLemmas proves what they promise.
 */
module Structure {
  import opened Wrappers
  import opened Syntax

  /** `ModuleNode` once it sits in its parent's `children` vector: an owned
      value. `kind` is one of "crate", "mod", "struct", "enum", "function",
      "method"; `visibility` is the text `GetVisibility` produces. */
  datatype Node = Node(
    name: string,
    kind: string,
    visibility: string,
    isAsync: bool,
    children: seq<Node>,
    path: Path)

  /** What the builder reports on its diagnostic channel. `DepthExceeded` is the
      model's own: it marks a file that lies deeper than the fuel bound. */
  datatype Diagnostic =
    | ReadFailed(file: Path)
    | ParseFailed(file: Path)
    | NoEntryFile(crate: Path)
    | DepthExceeded(file: Path)

  /** Children built so far, together with the diagnostics reported so far. */
  datatype Built = Built(children: seq<Node>, diagnostics: seq<Diagnostic>)

  /** `get_visibility`. The three named restrictions `self`, `crate` and
      `super` give exactly the text the generic `pub(<ident>)` case would. */
  function GetVisibility(vis: Vis): (s: string)
    ensures s == "pub" <==> vis.Public?
    ensures s == "private" <==> vis.Inherited?
    ensures vis.Restricted? && vis.segments != [] ==> s == "pub(" + vis.segments[0] + ")"
    ensures vis.Restricted? && vis.segments == [] ==> s == "restricted"
  {
    match vis
    case Public => "pub"
    case Restricted(segments) =>
      if segments != [] then
        var ident := segments[0];
        if ident == "self" then "pub(self)"
        else if ident == "crate" then "pub(crate)"
        else if ident == "super" then "pub(super)"
        else
          var s := "pub(" + ident + ")";
          assert s[1] == 'u' && "private"[1] == 'r';
          s
      else "restricted"
    case Inherited => "private"
  }

  /** `get_self_type`: the identifier of the last segment of a path type, and
      the empty string for a path without segments or any other type. */
  function GetSelfType(ty: Ty): (s: string)
    ensures ty.PathType? && ty.segments != [] ==> s == ty.segments[|ty.segments| - 1]
    ensures !(ty.PathType? && ty.segments != []) ==> s == ""
  {
    match ty
    case PathType(segments) => if segments != [] then segments[|segments| - 1] else ""
    case OtherType => ""
  }

  /** `fallback_crate_name`: the crate directory's last component, or "unknown_crate". */
  function FallbackCrateName(cratePath: Path): (s: string)
    ensures FileName(cratePath).Some? ==> s == FileName(cratePath).value
    ensures FileName(cratePath).None? ==> s == "unknown_crate"
  {
    match FileName(cratePath)
    case Some(name) => name
    case None => "unknown_crate"
  }

  /** The name `get_crate_name` settles on, given the `package.name` that the
      manifest declares (None when it cannot be read or has no such field). */
  function CrateName(cratePath: Path, manifestName: Option<string>): string
  {
    if manifestName.Some? then manifestName.value else FallbackCrateName(cratePath)
  }

  /** The predicate of the `find` in the `Impl` arm. */
  predicate IsTypeNamed(n: Node, name: string)
  {
    (n.kind == "struct" || n.kind == "enum") && n.name == name
  }

  /** `children.iter_mut().find(..)`: the index of the first struct or enum child
      with the given name. */
  function FindType(children: seq<Node>, name: string): (r: Option<nat>)
    ensures r.Some? ==> r.value < |children| && IsTypeNamed(children[r.value], name)
    ensures r.Some? ==> forall j :: 0 <= j < r.value ==> !IsTypeNamed(children[j], name)
    ensures r.None? ==> forall j :: 0 <= j < |children| ==> !IsTypeNamed(children[j], name)
  {
    if children == [] then None
    else if IsTypeNamed(children[0], name) then Some(0)
    else match FindType(children[1..], name)
      case Some(k) => Some(k + 1)
      case None => None
  }

  /** The "method" node for one `fn` of an impl block. */
  function MethodNode(f: ImplItem, path: Path): Node
    requires f.ImplFn?
  {
    Node(f.ident, "method", GetVisibility(f.vis), f.isAsync, [], path)
  }

  /** The method nodes an impl block contributes: one per `fn`, in block order. */
  /** The number of `fn` items among `implItems`. */
  function FnCount(implItems: seq<ImplItem>): nat
  {
    if implItems == [] then 0
    else FnCount(implItems[..|implItems| - 1]) + (if implItems[|implItems| - 1].ImplFn? then 1 else 0)
  }

  function MethodNodes(implItems: seq<ImplItem>, path: Path): (r: seq<Node>)
    ensures |r| == FnCount(implItems) <= |implItems|
    ensures forall k :: 0 <= k < |r| ==> r[k].kind == "method" && r[k].children == [] && r[k].path == path
  {
    if implItems == [] then []
    else
      var last := implItems[|implItems| - 1];
      MethodNodes(implItems[..|implItems| - 1], path) + (if last.ImplFn? then [MethodNode(last, path)] else [])
  }

  /** `process_item(item, parent)`: the parent's children afterwards, where
      `path` is the parent's `path`. */
  function Step(item: Item, children: seq<Node>, path: Path): seq<Node>
    decreases item
  {
    match item
    case Struct(ident, vis) => children + [Node(ident, "struct", GetVisibility(vis), false, [], path)]
    case Enum(ident, vis) => children + [Node(ident, "enum", GetVisibility(vis), false, [], path)]
    case Fn(ident, vis, isAsync) => children + [Node(ident, "function", GetVisibility(vis), isAsync, [], path)]
    case Mod(ident, vis, content) =>
      var inner := match content
        case Inline(items) => Fold(items, [], path)
        case External => [];
      children + [Node(ident, "mod", GetVisibility(vis), false, inner, path)]
    case Impl(selfTy, implItems) =>
      (match FindType(children, GetSelfType(selfTy))
       case None => children
       case Some(k) => children[k := children[k].(children := children[k].children + MethodNodes(implItems, path))])
    case OtherItem => children
  }

  /** `process_item` applied to each item in turn. */
  function Fold(items: seq<Item>, children: seq<Node>, path: Path): seq<Node>
    decreases items
  {
    if items == [] then children
    else Step(items[|items| - 1], Fold(items[..|items| - 1], children, path), path)
  }

  /** `<dir>/<name>.rs` */
  function ModFile(dir: Path, name: string): Path
  {
    dir + [Normal(name + ".rs")]
  }

  /** `<dir>/<name>/mod.rs` */
  function ModDirFile(dir: Path, name: string): Path
  {
    dir + [Normal(name), Normal("mod.rs")]
  }

  /** `process_file(filePath, parent)`: reads and parses the file and processes
      its items; `parentPath` is the parent's `path`. A file that cannot be read
      or parsed leaves the children as they are. `fuel` bounds how deep files
      may nest; each file uses one unit. */
  function FileSpec(fs: FileSystem, filePath: Path, children: seq<Node>, parentPath: Path, fuel: nat): Built
    decreases fuel, 0, 0
  {
    if fuel == 0 then Built(children, [DepthExceeded(filePath)])
    else if filePath !in fs.files then Built(children, [ReadFailed(filePath)])
    else match fs.files[filePath]
      case Unparsable => Built(children, [ParseFailed(filePath)])
      case Parsed(items) => FileFold(fs, filePath, items, Built(children, []), parentPath, fuel - 1)
  }

  /** The loop of `process_file` over the file's items. */
  function FileFold(fs: FileSystem, filePath: Path, items: seq<Item>, acc: Built, parentPath: Path, fuel: nat): Built
    decreases fuel, 3, |items|
  {
    if items == [] then acc
    else FileItem(fs, filePath, items[|items| - 1], FileFold(fs, filePath, items[..|items| - 1], acc, parentPath, fuel), parentPath, fuel)
  }

  /** One iteration of that loop: a module becomes a node whose `path` is the
      current file; every other item goes to `process_item`. */
  function FileItem(fs: FileSystem, filePath: Path, item: Item, acc: Built, parentPath: Path, fuel: nat): Built
    decreases fuel, 2, 0
  {
    match item
    case Mod(ident, vis, content) =>
      var sub := match content
        case Inline(items) => Built(Fold(items, [], filePath), [])
        case External => ExternalModule(fs, filePath, ident, fuel);
      Built(acc.children + [Node(ident, "mod", GetVisibility(vis), false, sub.children, filePath)],
            acc.diagnostics + sub.diagnostics)
    case _ => Built(Step(item, acc.children, parentPath), acc.diagnostics)
  }

  /** The contents of `mod name;` declared in `filePath`: the file `<dir>/<name>.rs`
      if it exists, else `<dir>/<name>/mod.rs` if that exists, else nothing. */
  function ExternalModule(fs: FileSystem, filePath: Path, name: string, fuel: nat): Built
    decreases fuel, 1, 0
  {
    var dir := Parent(filePath);
    if ModFile(dir, name) in fs.present then FileSpec(fs, ModFile(dir, name), [], filePath, fuel)
    else if ModDirFile(dir, name) in fs.present then FileSpec(fs, ModDirFile(dir, name), [], filePath, fuel)
    else Built([], [])
  }

  /** `<crate>/src/lib.rs` */
  function LibPath(cratePath: Path): Path
  {
    cratePath + [Normal("src"), Normal("lib.rs")]
  }

  /** `<crate>/src/main.rs` */
  function MainPath(cratePath: Path): Path
  {
    cratePath + [Normal("src"), Normal("main.rs")]
  }

  /** `parse_crate`: the root node and the diagnostics reported on the way. */
  function CrateSpec(fs: FileSystem, cratePath: Path, manifestName: Option<string>, fuel: nat): (Node, seq<Diagnostic>)
  {
    var afterLib :=
      if LibPath(cratePath) in fs.present then FileSpec(fs, LibPath(cratePath), [], cratePath, fuel)
      else Built([], []);
    var afterMain :=
      if MainPath(cratePath) in fs.present then
        var m := FileSpec(fs, MainPath(cratePath), afterLib.children, cratePath, fuel);
        Built(m.children, afterLib.diagnostics + m.diagnostics)
      else Built(afterLib.children, afterLib.diagnostics + [NoEntryFile(cratePath)]);
    (Node(CrateName(cratePath, manifestName), "crate", "pub", false, afterMain.children, cratePath),
     afterMain.diagnostics)
  }
}
