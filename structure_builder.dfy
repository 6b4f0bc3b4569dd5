/**
 * The imperative builder of src/parser/structure.rs: `process_item`,
 * `process_file` and `parse_crate` push nodes into the `children` vector of
 * the node being filled, and the `Impl` arm pushes into the `children` of the
 * struct or enum child it finds. Each method is proved to leave exactly the
 * children that the specification functions of module Structure describe.
 */
module StructureBuilder {
  import opened Wrappers
  import opened Syntax
  import opened Structure

  /** A `ModuleNode` while it is being filled. Only `children` ever changes. */
  class ModuleNode {
    const name: string
    const kind: string
    const visibility: string
    const isAsync: bool
    const path: Path
    var children: seq<Node>

    constructor (name: string, kind: string, visibility: string, isAsync: bool, path: Path)
      ensures this.name == name && this.kind == kind && this.visibility == visibility
      ensures this.isAsync == isAsync && this.path == path && children == []
    {
      this.name := name;
      this.kind := kind;
      this.visibility := visibility;
      this.isAsync := isAsync;
      this.path := path;
      children := [];
    }

    /** The node as it is moved into its parent's vector. */
    function Value(): Node
      reads this
    {
      Node(name, kind, visibility, isAsync, children, path)
    }
  }

  /** `process_item` */
  method ProcessItem(item: Item, parent: ModuleNode)
    modifies parent
    ensures parent.children == Step(item, old(parent.children), parent.path)
    decreases item
  {
    match item {
      case Struct(ident, vis) =>
        parent.children := parent.children + [Node(ident, "struct", GetVisibility(vis), false, [], parent.path)];
      case Enum(ident, vis) =>
        parent.children := parent.children + [Node(ident, "enum", GetVisibility(vis), false, [], parent.path)];
      case Fn(ident, vis, isAsync) =>
        parent.children := parent.children + [Node(ident, "function", GetVisibility(vis), isAsync, [], parent.path)];
      case Mod(ident, vis, content) =>
        var child := new ModuleNode(ident, "mod", GetVisibility(vis), false, parent.path);
        match content {
          case Inline(items) =>
            ProcessItems(items, child);
          case External =>
        }
        parent.children := parent.children + [child.Value()];
      case Impl(selfTy, implItems) =>
        var found := FindTypeIndex(parent.children, GetSelfType(selfTy));
        if found.Some? {
          AttachMethods(implItems, parent, found.value);
        }
      case OtherItem =>
    }
  }

  /** The `find` of the `Impl` arm: the first struct or enum child named `name`. */
  method FindTypeIndex(children: seq<Node>, name: string) returns (found: Option<nat>)
    ensures found == FindType(children, name)
  {
    var k := 0;
    while k < |children| && !IsTypeNamed(children[k], name)
      invariant k <= |children|
      invariant forall j :: 0 <= j < k ==> !IsTypeNamed(children[j], name)
    {
      k := k + 1;
    }
    found := if k < |children| then Some(k) else None;
  }

  /** The loop of the `Impl` arm: every `fn` of the block is pushed, as a
      "method" node, onto the children of the child at index `k`. The pushes
      go to a copy of that child's vector, which replaces the original once
      the block is done; no other node is reachable in between. */
  method AttachMethods(implItems: seq<ImplItem>, parent: ModuleNode, k: nat)
    requires k < |parent.children|
    modifies parent
    ensures parent.children == old(parent.children)[k := old(parent.children)[k].(
              children := old(parent.children)[k].children + MethodNodes(implItems, parent.path))]
  {
    var target := parent.children[k];
    var pushed := target.children;
    for j := 0 to |implItems|
      invariant pushed == target.children + MethodNodes(implItems[..j], parent.path)
    {
      assert implItems[..j + 1][..j] == implItems[..j];
      if implItems[j].ImplFn? {
        pushed := pushed + [MethodNode(implItems[j], parent.path)];
      }
    }
    assert implItems[..|implItems|] == implItems;
    parent.children := parent.children[k := target.(children := pushed)];
  }

  /** The items of an inline module body, pushed into `node` one by one. */
  method ProcessItems(items: seq<Item>, node: ModuleNode)
    modifies node
    ensures node.children == Fold(items, old(node.children), node.path)
    decreases items
  {
    for i := 0 to |items|
      invariant node.children == Fold(items[..i], old(node.children), node.path)
    {
      ProcessItem(items[i], node);
      assert items[..i + 1][..i] == items[..i];
    }
    assert items[..|items|] == items;
  }

  /** The `mod name;` branch of `process_file`: `child` is filled from the
      first of `<dir>/<name>.rs` and `<dir>/<name>/mod.rs` that exists. */
  method ProcessExternal(fs: FileSystem, filePath: Path, ident: string, child: ModuleNode, fuel: nat)
    returns (diagnostics: seq<Diagnostic>)
    requires child.children == [] && child.path == filePath
    modifies child
    ensures Built(child.children, diagnostics) == ExternalModule(fs, filePath, ident, fuel)
    decreases fuel, 1
  {
    var dir := Parent(filePath);
    var modFile := ModFile(dir, ident);
    var modDirFile := ModDirFile(dir, ident);
    if modFile in fs.present {
      diagnostics := ProcessFile(fs, modFile, child, fuel);
    } else if modDirFile in fs.present {
      diagnostics := ProcessFile(fs, modDirFile, child, fuel);
    } else {
      diagnostics := [];
    }
  }

  /** One iteration of the loop of `process_file`: a module becomes a node
      whose `path` is the current file, every other item goes to
      `process_item`; `diagnostics` extends those gathered so far. */
  method ProcessFileItem(fs: FileSystem, filePath: Path, item: Item, parent: ModuleNode,
                         gathered: seq<Diagnostic>, fuel: nat)
    returns (diagnostics: seq<Diagnostic>)
    modifies parent
    ensures Built(parent.children, diagnostics)
         == FileItem(fs, filePath, item, Built(old(parent.children), gathered), parent.path, fuel)
    decreases fuel, 2
  {
    match item {
      case Mod(ident, vis, content) =>
        var child := new ModuleNode(ident, "mod", GetVisibility(vis), false, filePath);
        var d := [];
        match content {
          case Inline(inner) =>
            ProcessItems(inner, child);
          case External =>
            d := ProcessExternal(fs, filePath, ident, child, fuel);
        }
        diagnostics := gathered + d;
        parent.children := parent.children + [child.Value()];
      case _ =>
        ProcessItem(item, parent);
        diagnostics := gathered;
    }
  }

  /** `process_file`, with at most `fuel` levels of files. */
  method ProcessFile(fs: FileSystem, filePath: Path, parent: ModuleNode, fuel: nat) returns (diagnostics: seq<Diagnostic>)
    modifies parent
    ensures Built(parent.children, diagnostics) == FileSpec(fs, filePath, old(parent.children), parent.path, fuel)
    decreases fuel, 0
  {
    if fuel == 0 {
      return [DepthExceeded(filePath)];
    }
    if filePath !in fs.files {
      return [ReadFailed(filePath)];
    }
    match fs.files[filePath] {
      case Unparsable =>
        return [ParseFailed(filePath)];
      case Parsed(items) =>
        diagnostics := [];
        for i := 0 to |items|
          invariant Built(parent.children, diagnostics)
                 == FileFold(fs, filePath, items[..i], Built(old(parent.children), []), parent.path, fuel - 1)
        {
          diagnostics := ProcessFileItem(fs, filePath, items[i], parent, diagnostics, fuel - 1);
          assert items[..i + 1][..i] == items[..i];
        }
        assert items[..|items|] == items;
    }
  }

  /** `parse_crate`, given what the manifest says the package is called. */
  method ParseCrate(fs: FileSystem, cratePath: Path, manifestName: Option<string>, fuel: nat)
    returns (root: Node, diagnostics: seq<Diagnostic>)
    ensures (root, diagnostics) == CrateSpec(fs, cratePath, manifestName, fuel)
  {
    var node := new ModuleNode(CrateName(cratePath, manifestName), "crate", "pub", false, cratePath);
    var libPath := LibPath(cratePath);
    var mainPath := MainPath(cratePath);
    diagnostics := [];
    if libPath in fs.present {
      diagnostics := ProcessFile(fs, libPath, node, fuel);
    }
    if mainPath in fs.present {
      var d := ProcessFile(fs, mainPath, node, fuel);
      diagnostics := diagnostics + d;
    } else {
      diagnostics := diagnostics + [NoEntryFile(cratePath)];
    }
    root := node.Value();
  }
}
