/**
 * What the tree builder of src/parser/structure.rs promises, proved about the
 * specification functions of module Structure (and so, through their
 * postconditions, about the methods of module StructureBuilder).
 */
module StructureLemmas {
  import opened Wrappers
  import opened Syntax
  import opened Structure

  /** The fields of a node other than its children. */
  predicate SameHeader(a: Node, b: Node)
  {
    a.name == b.name && a.kind == b.kind && a.visibility == b.visibility && a.isAsync == b.isAsync && a.path == b.path
  }

  /** `later` keeps every node of `earlier` in place: same position, same
      header, and the old children as a prefix of the new ones. */
  ghost predicate Extends(earlier: seq<Node>, later: seq<Node>)
  {
    |earlier| <= |later| &&
    forall k :: 0 <= k < |earlier| ==> SameHeader(earlier[k], later[k]) && earlier[k].children <= later[k].children
  }

  /** The shape a node below the crate root always has: a function is a leaf;
      a struct or enum holds only method leaves; a module holds well-formed
      members (so never a method, nor a second crate). */
  ghost predicate WellFormedMember(n: Node)
    decreases n
  {
    if n.kind == "function" then n.children == []
    else if n.kind == "struct" || n.kind == "enum" then
      forall m :: m in n.children ==> m.kind == "method" && m.children == []
    else if n.kind == "mod" then
      forall m :: m in n.children ==> WellFormedMember(m)
    else false
  }

  ghost predicate AllWellFormed(s: seq<Node>)
  {
    forall n :: n in s ==> WellFormedMember(n)
  }

  ghost predicate NoEntryFree(ds: seq<Diagnostic>)
  {
    forall d :: d in ds ==> !d.NoEntryFile?
  }

  /** The number of items that put a node into the parent: structs, enums,
      functions and modules. Impl blocks and other items add none. */
  function DeclCount(items: seq<Item>): nat
  {
    if items == [] then 0
    else
      var last := items[|items| - 1];
      DeclCount(items[..|items| - 1]) + (if last.Struct? || last.Enum? || last.Fn? || last.Mod? then 1 else 0)
  }

  lemma ExtendsTransitive(a: seq<Node>, b: seq<Node>, c: seq<Node>)
    requires Extends(a, b) && Extends(b, c)
    ensures Extends(a, c)
  {
    forall k | 0 <= k < |a|
      ensures SameHeader(a[k], c[k]) && a[k].children <= c[k].children
    {
      assert b[k].children <= c[k].children;
    }
  }

  /** A struct, enum, fn or mod item appends exactly one node and leaves the
      existing children as they were. */
  lemma StepAppendsOne(item: Item, children: seq<Node>, path: Path)
    requires item.Struct? || item.Enum? || item.Fn? || item.Mod?
    ensures var r := Step(item, children, path);
      |r| == |children| + 1 && r[..|children|] == children &&
      r[|children|].name == item.ident &&
      r[|children|].visibility == GetVisibility(item.vis) &&
      r[|children|].path == path &&
      r[|children|].kind == (if item.Struct? then "struct" else if item.Enum? then "enum" else if item.Fn? then "function" else "mod") &&
      r[|children|].isAsync == (item.Fn? && item.isAsync) &&
      (item.Mod? && item.content.Inline? ==> r[|children|].children == Fold(item.content.items, [], path)) &&
      (!(item.Mod? && item.content.Inline?) ==> r[|children|].children == [])
  {
  }

  /** An impl block whose type is a struct or enum child attaches its fns, in
      block order, to the first such child only; nothing else changes. */
  lemma ImplAttachesToFirstType(selfTy: Ty, implItems: seq<ImplItem>, children: seq<Node>, path: Path, k: nat)
    requires k < |children| && IsTypeNamed(children[k], GetSelfType(selfTy))
    requires forall j :: 0 <= j < k ==> !IsTypeNamed(children[j], GetSelfType(selfTy))
    ensures var r := Step(Impl(selfTy, implItems), children, path);
      |r| == |children| &&
      SameHeader(r[k], children[k]) &&
      r[k].children == children[k].children + MethodNodes(implItems, path) &&
      forall j :: 0 <= j < |children| && j != k ==> r[j] == children[j]
  {
    var m := FindType(children, GetSelfType(selfTy));
    assert m.Some? && m.value == k by {
      if m.None? {
      } else if m.value < k {
      } else if m.value > k {
      }
    }
  }

  /** An impl block whose type is not (yet) a struct or enum child, and every
      item other than struct, enum, fn, mod and impl, change nothing. */
  lemma UnattachedImplChangesNothing(item: Item, children: seq<Node>, path: Path)
    requires item.OtherItem? || (item.Impl? && forall j :: 0 <= j < |children| ==> !IsTypeNamed(children[j], GetSelfType(item.selfTy)))
    ensures Step(item, children, path) == children
  {
  }

  /** An impl block that comes before the declaration of its type attaches
      nothing, even once the type has been declared. */
  lemma {:induction false} ImplBeforeTypeIsDropped(name: string, vis: Vis, implItems: seq<ImplItem>, children: seq<Node>, path: Path)
    requires forall j :: 0 <= j < |children| ==> !IsTypeNamed(children[j], name)
    ensures Fold([Impl(PathType([name]), implItems), Struct(name, vis)], children, path)
         == children + [Node(name, "struct", GetVisibility(vis), false, [], path)]
  {
    var items := [Impl(PathType([name]), implItems), Struct(name, vis)];
    assert items[..1] == [Impl(PathType([name]), implItems)];
    assert items[..1][..0] == [];
    assert Fold(items[..1], children, path) == Step(items[0], children, path);
    UnattachedImplChangesNothing(items[0], children, path);
  }

  /** An impl block contributes one node per `fn`, in block order: the j-th
      item, when it is a `fn`, gives the method node at the position counted
      by the `fn`s before it, with its name, visibility and asyncness. Other
      impl items add nothing. */
  lemma {:induction false} MethodNodesInBlockOrder(implItems: seq<ImplItem>, path: Path)
    ensures var r := MethodNodes(implItems, path);
      forall j :: 0 <= j < |implItems| && implItems[j].ImplFn? ==>
        FnCount(implItems[..j]) < |r| &&
        r[FnCount(implItems[..j])] ==
          Node(implItems[j].ident, "method", GetVisibility(implItems[j].vis), implItems[j].isAsync, [], path)
  {
    if implItems != [] {
      var n := |implItems| - 1;
      var front := implItems[..n];
      MethodNodesInBlockOrder(front, path);
      var r := MethodNodes(implItems, path);
      var r0 := MethodNodes(front, path);
      assert r[..|r0|] == r0;
      forall j | 0 <= j < |implItems| && implItems[j].ImplFn?
        ensures FnCount(implItems[..j]) < |r| &&
          r[FnCount(implItems[..j])] ==
            Node(implItems[j].ident, "method", GetVisibility(implItems[j].vis), implItems[j].isAsync, [], path)
      {
        if j < n {
          assert implItems[..j] == front[..j];
          assert front[j] == implItems[j];
          assert r[FnCount(front[..j])] == r0[FnCount(front[..j])];
        } else {
          assert implItems[..j] == front;
        }
      }
    }
  }

  lemma {:induction false} StepInvariants(item: Item, children: seq<Node>, path: Path)
    requires AllWellFormed(children)
    ensures Extends(children, Step(item, children, path))
    ensures AllWellFormed(Step(item, children, path))
    ensures |Step(item, children, path)| == |children| + DeclCount([item])
    decreases item
  {
    assert [item][..0] == [];
    var r := Step(item, children, path);
    match item {
      case Mod(ident, vis, content) =>
        match content {
          case Inline(items) => FoldInvariants(items, [], path);
          case External =>
        }
        assert WellFormedMember(r[|children|]);
        forall n | n in r ensures WellFormedMember(n) {
          if n !in children { assert n == r[|children|]; }
        }
      case Impl(selfTy, implItems) =>
        match FindType(children, GetSelfType(selfTy)) {
          case None =>
          case Some(k) =>
            assert WellFormedMember(children[k]) by { assert children[k] in children; }
            assert WellFormedMember(r[k]);
            forall n | n in r ensures WellFormedMember(n) {
              var j :| 0 <= j < |r| && r[j] == n;
              if j != k { assert r[j] == children[j] && children[j] in children; }
            }
        }
      case OtherItem =>
      case _ =>
        forall n | n in r ensures WellFormedMember(n) {
          if n !in children { assert n == r[|children|]; }
        }
    }
  }

  /** Processing items keeps every existing child in place, keeps the tree
      well formed, and adds one node per struct, enum, fn and mod item. */
  lemma {:induction false} FoldInvariants(items: seq<Item>, children: seq<Node>, path: Path)
    requires AllWellFormed(children)
    ensures Extends(children, Fold(items, children, path))
    ensures AllWellFormed(Fold(items, children, path))
    ensures |Fold(items, children, path)| == |children| + DeclCount(items)
    decreases items
  {
    if items != [] {
      var prefix := items[..|items| - 1];
      var last := items[|items| - 1];
      FoldInvariants(prefix, children, path);
      var mid := Fold(prefix, children, path);
      StepInvariants(last, mid, path);
      assert [last][..0] == [];
      ExtendsTransitive(children, mid, Step(last, mid, path));
    }
  }

  lemma {:induction false} FileSpecInvariants(fs: FileSystem, filePath: Path, children: seq<Node>, parentPath: Path, fuel: nat)
    requires AllWellFormed(children)
    ensures var r := FileSpec(fs, filePath, children, parentPath, fuel);
      Extends(children, r.children) && AllWellFormed(r.children) && NoEntryFree(r.diagnostics)
    decreases fuel, 0, 0
  {
    if fuel > 0 && filePath in fs.files && fs.files[filePath].Parsed? {
      FileFoldInvariants(fs, filePath, fs.files[filePath].items, Built(children, []), parentPath, fuel - 1);
    }
  }

  lemma {:induction false} FileFoldInvariants(fs: FileSystem, filePath: Path, items: seq<Item>, acc: Built, parentPath: Path, fuel: nat)
    requires AllWellFormed(acc.children) && NoEntryFree(acc.diagnostics)
    ensures var r := FileFold(fs, filePath, items, acc, parentPath, fuel);
      Extends(acc.children, r.children) && AllWellFormed(r.children) && NoEntryFree(r.diagnostics) &&
      |r.children| == |acc.children| + DeclCount(items)
    decreases fuel, 3, |items|
  {
    if items != [] {
      var prefix := items[..|items| - 1];
      var last := items[|items| - 1];
      FileFoldInvariants(fs, filePath, prefix, acc, parentPath, fuel);
      var mid := FileFold(fs, filePath, prefix, acc, parentPath, fuel);
      FileItemInvariants(fs, filePath, last, mid, parentPath, fuel);
      assert [last][..0] == [];
      ExtendsTransitive(acc.children, mid.children, FileItem(fs, filePath, last, mid, parentPath, fuel).children);
    }
  }

  lemma {:induction false} FileItemInvariants(fs: FileSystem, filePath: Path, item: Item, acc: Built, parentPath: Path, fuel: nat)
    requires AllWellFormed(acc.children) && NoEntryFree(acc.diagnostics)
    ensures var r := FileItem(fs, filePath, item, acc, parentPath, fuel);
      Extends(acc.children, r.children) && AllWellFormed(r.children) && NoEntryFree(r.diagnostics) &&
      |r.children| == |acc.children| + DeclCount([item])
    decreases fuel, 2, 0
  {
    assert [item][..0] == [];
    match item {
      case Mod(ident, vis, content) =>
        var sub := match content
          case Inline(items) => Built(Fold(items, [], filePath), [])
          case External => ExternalModule(fs, filePath, ident, fuel);
        match content {
          case Inline(items) => FoldInvariants(items, [], filePath);
          case External => ExternalModuleInvariants(fs, filePath, ident, fuel);
        }
        var r := FileItem(fs, filePath, item, acc, parentPath, fuel);
        assert r.children == acc.children + [Node(ident, "mod", GetVisibility(vis), false, sub.children, filePath)];
        forall n | n in r.children ensures WellFormedMember(n) {
          if n !in acc.children { assert n == r.children[|acc.children|]; }
        }
      case _ =>
        StepInvariants(item, acc.children, parentPath);
    }
  }

  lemma {:induction false} ExternalModuleInvariants(fs: FileSystem, filePath: Path, name: string, fuel: nat)
    ensures var r := ExternalModule(fs, filePath, name, fuel);
      AllWellFormed(r.children) && NoEntryFree(r.diagnostics)
    decreases fuel, 1, 0
  {
    var dir := Parent(filePath);
    if ModFile(dir, name) in fs.present {
      FileSpecInvariants(fs, ModFile(dir, name), [], filePath, fuel);
    } else if ModDirFile(dir, name) in fs.present {
      FileSpecInvariants(fs, ModDirFile(dir, name), [], filePath, fuel);
    }
  }

  /** A top-level `mod name;` always adds one module node, whose `path` is the
      declaring file. Its children come from `<dir>/<name>.rs` when that exists,
      even if `<dir>/<name>/mod.rs` exists too; else from `<dir>/<name>/mod.rs`;
      else the node is empty and nothing is reported. */
  lemma ExternalModuleResolution(fs: FileSystem, filePath: Path, name: string, vis: Vis, acc: Built, parentPath: Path, fuel: nat)
    ensures var r := FileItem(fs, filePath, Mod(name, vis, External), acc, parentPath, fuel);
      var dir := Parent(filePath);
      var n := |acc.children|;
      |r.children| == n + 1 && r.children[..n] == acc.children &&
      r.children[n].kind == "mod" && r.children[n].name == name && r.children[n].path == filePath &&
      (ModFile(dir, name) in fs.present ==>
        r.children[n].children == FileSpec(fs, ModFile(dir, name), [], filePath, fuel).children) &&
      (ModFile(dir, name) !in fs.present && ModDirFile(dir, name) in fs.present ==>
        r.children[n].children == FileSpec(fs, ModDirFile(dir, name), [], filePath, fuel).children) &&
      (ModFile(dir, name) !in fs.present && ModDirFile(dir, name) !in fs.present ==>
        r.children[n].children == [] && r.diagnostics == acc.diagnostics)
  {
  }

  /** The root that `parse_crate` returns: kind "crate", visibility "pub", the
      manifest's name or else the directory's, and a well-formed tree below it. */
  lemma CrateRoot(fs: FileSystem, cratePath: Path, manifestName: Option<string>, fuel: nat)
    ensures var (root, _) := CrateSpec(fs, cratePath, manifestName, fuel);
      root.kind == "crate" && root.visibility == "pub" && !root.isAsync && root.path == cratePath &&
      root.name == (if manifestName.Some? then manifestName.value else FallbackCrateName(cratePath)) &&
      AllWellFormed(root.children)
  {
    CrateFacts(fs, cratePath, manifestName, fuel);
  }

  /** "Neither lib.rs nor main.rs found" is reported exactly when `src/main.rs`
      is missing, whether or not `src/lib.rs` exists. */
  lemma CrateNoEntryIff(fs: FileSystem, cratePath: Path, manifestName: Option<string>, fuel: nat)
    ensures var (_, diagnostics) := CrateSpec(fs, cratePath, manifestName, fuel);
      NoEntryFile(cratePath) in diagnostics <==> MainPath(cratePath) !in fs.present
  {
    CrateFacts(fs, cratePath, manifestName, fuel);
  }

  /** The nodes from `src/lib.rs` come first under the root and stay in place
      while `src/main.rs` is processed (its impl blocks may still add methods). */
  lemma CrateLibBeforeMain(fs: FileSystem, cratePath: Path, manifestName: Option<string>, fuel: nat)
    requires LibPath(cratePath) in fs.present
    ensures var (root, _) := CrateSpec(fs, cratePath, manifestName, fuel);
      Extends(FileSpec(fs, LibPath(cratePath), [], cratePath, fuel).children, root.children)
  {
    CrateFacts(fs, cratePath, manifestName, fuel);
  }

  lemma CrateFacts(fs: FileSystem, cratePath: Path, manifestName: Option<string>, fuel: nat)
    ensures var (root, diagnostics) := CrateSpec(fs, cratePath, manifestName, fuel);
      AllWellFormed(root.children) &&
      (NoEntryFile(cratePath) in diagnostics <==> MainPath(cratePath) !in fs.present) &&
      (LibPath(cratePath) in fs.present ==>
        Extends(FileSpec(fs, LibPath(cratePath), [], cratePath, fuel).children, root.children))
  {
    var lib := Built([], []);
    if LibPath(cratePath) in fs.present {
      FileSpecInvariants(fs, LibPath(cratePath), [], cratePath, fuel);
      lib := FileSpec(fs, LibPath(cratePath), [], cratePath, fuel);
    }
    if MainPath(cratePath) in fs.present {
      FileSpecInvariants(fs, MainPath(cratePath), lib.children, cratePath, fuel);
      var m := FileSpec(fs, MainPath(cratePath), lib.children, cratePath, fuel);
      assert NoEntryFree(lib.diagnostics + m.diagnostics);
    } else {
      assert Extends(lib.children, lib.children);
      assert (lib.diagnostics + [NoEntryFile(cratePath)])[|lib.diagnostics|] == NoEntryFile(cratePath);
    }
  }

  /** The shape of one `process_item` step without any assumption on the
      children: existing children stay in place, and the nodes it adds carry
      the parent's path. */
  lemma StepShape(item: Item, children: seq<Node>, path: Path)
    ensures var r := Step(item, children, path);
      Extends(children, r) && |r| == |children| + DeclCount([item]) &&
      forall k :: |children| <= k < |r| ==> r[k].path == path
  {
    assert [item][..0] == [];
  }

  /** Where the `path` of a node added by `process_file` comes from: a module
      declared in the file carries the file's path; every other node carries
      the path of the parent being filled (for the top-level items of
      `src/lib.rs`, the crate directory) rather than the file it is declared in. */
  lemma {:induction false} FileSpecPaths(fs: FileSystem, filePath: Path, children: seq<Node>, parentPath: Path, fuel: nat)
    ensures var r := FileSpec(fs, filePath, children, parentPath, fuel).children;
      |children| <= |r| &&
      forall k :: |children| <= k < |r| ==> r[k].path == (if r[k].kind == "mod" then filePath else parentPath)
  {
    if fuel > 0 && filePath in fs.files && fs.files[filePath].Parsed? {
      FileFoldPaths(fs, filePath, fs.files[filePath].items, Built(children, []), parentPath, fuel - 1);
    }
  }

  lemma {:induction false} FileFoldPaths(fs: FileSystem, filePath: Path, items: seq<Item>, acc: Built, parentPath: Path, fuel: nat)
    ensures var r := FileFold(fs, filePath, items, acc, parentPath, fuel).children;
      Extends(acc.children, r) &&
      forall k :: |acc.children| <= k < |r| ==> r[k].path == (if r[k].kind == "mod" then filePath else parentPath)
    decreases |items|
  {
    if items != [] {
      var prefix := items[..|items| - 1];
      var last := items[|items| - 1];
      FileFoldPaths(fs, filePath, prefix, acc, parentPath, fuel);
      var mid := FileFold(fs, filePath, prefix, acc, parentPath, fuel);
      var r := FileItem(fs, filePath, last, mid, parentPath, fuel).children;
      if last.Mod? {
        assert r[..|mid.children|] == mid.children;
      } else {
        StepShape(last, mid.children, parentPath);
        assert last.Struct? || last.Enum? || last.Fn? ==> r[|r| - 1].kind != "mod";
      }
      ExtendsTransitive(acc.children, mid.children, r);
    }
  }

  /** No report says the depth bound was reached. */
  ghost predicate WithinDepth(ds: seq<Diagnostic>)
  {
    forall d :: d in ds ==> !d.DepthExceeded?
  }

  /** Once processing a file reports no `DepthExceeded`, more fuel gives the
      same children and reports: the bounded model then agrees with the
      unbounded recursion of `process_file`. */
  lemma {:induction false} FileSpecFuel(fs: FileSystem, filePath: Path, children: seq<Node>, parentPath: Path, fuel: nat)
    requires WithinDepth(FileSpec(fs, filePath, children, parentPath, fuel).diagnostics)
    ensures FileSpec(fs, filePath, children, parentPath, fuel + 1) == FileSpec(fs, filePath, children, parentPath, fuel)
    decreases fuel, 0, 0
  {
    if fuel == 0 {
      OutOfFuel(fs, filePath, children, parentPath);
      assert false;
    } else if filePath in fs.files && fs.files[filePath].Parsed? {
      FileFoldFuel(fs, filePath, fs.files[filePath].items, Built(children, []), parentPath, fuel - 1);
    }
  }

  lemma {:induction false} FileFoldFuel(fs: FileSystem, filePath: Path, items: seq<Item>, acc: Built, parentPath: Path, fuel: nat)
    requires WithinDepth(FileFold(fs, filePath, items, acc, parentPath, fuel).diagnostics)
    ensures FileFold(fs, filePath, items, acc, parentPath, fuel + 1) == FileFold(fs, filePath, items, acc, parentPath, fuel)
    decreases fuel, 3, |items|
  {
    if items != [] {
      var n := |items| - 1;
      var before := FileFold(fs, filePath, items[..n], acc, parentPath, fuel);
      FileItemKeepsReports(fs, filePath, items[n], before, parentPath, fuel);
      FileFoldFuel(fs, filePath, items[..n], acc, parentPath, fuel);
      FileItemFuel(fs, filePath, items[n], before, parentPath, fuel);
    }
  }

  lemma {:induction false} FileItemFuel(fs: FileSystem, filePath: Path, item: Item, acc: Built, parentPath: Path, fuel: nat)
    requires WithinDepth(FileItem(fs, filePath, item, acc, parentPath, fuel).diagnostics)
    ensures FileItem(fs, filePath, item, acc, parentPath, fuel + 1) == FileItem(fs, filePath, item, acc, parentPath, fuel)
    decreases fuel, 2, 0
  {
    if item.Mod? && item.content.External? {
      var sub := ExternalModule(fs, filePath, item.ident, fuel);
      assert FileItem(fs, filePath, item, acc, parentPath, fuel).diagnostics == acc.diagnostics + sub.diagnostics;
      assert WithinDepth(sub.diagnostics);
      ExternalModuleFuel(fs, filePath, item.ident, fuel);
    }
  }

  lemma {:induction false} ExternalModuleFuel(fs: FileSystem, filePath: Path, name: string, fuel: nat)
    requires WithinDepth(ExternalModule(fs, filePath, name, fuel).diagnostics)
    ensures ExternalModule(fs, filePath, name, fuel + 1) == ExternalModule(fs, filePath, name, fuel)
    decreases fuel, 1, 0
  {
    var dir := Parent(filePath);
    if ModFile(dir, name) in fs.present {
      FileSpecFuel(fs, ModFile(dir, name), [], filePath, fuel);
    } else if ModDirFile(dir, name) in fs.present {
      FileSpecFuel(fs, ModDirFile(dir, name), [], filePath, fuel);
    }
  }

  /** Without fuel, a file is reported as too deep. */
  lemma OutOfFuel(fs: FileSystem, filePath: Path, children: seq<Node>, parentPath: Path)
    ensures !WithinDepth(FileSpec(fs, filePath, children, parentPath, 0).diagnostics)
  {
    assert DepthExceeded(filePath) in FileSpec(fs, filePath, children, parentPath, 0).diagnostics;
  }

  /** One iteration of the file loop only adds reports. */
  lemma FileItemKeepsReports(fs: FileSystem, filePath: Path, item: Item, acc: Built, parentPath: Path, fuel: nat)
    ensures acc.diagnostics <= FileItem(fs, filePath, item, acc, parentPath, fuel).diagnostics
  {
  }

  /** The same for a whole crate: a crate built without reaching the bound
      is built the same with any larger bound. */
  lemma CrateSpecFuel(fs: FileSystem, cratePath: Path, manifestName: Option<string>, fuel: nat)
    requires WithinDepth(CrateSpec(fs, cratePath, manifestName, fuel).1)
    ensures CrateSpec(fs, cratePath, manifestName, fuel + 1) == CrateSpec(fs, cratePath, manifestName, fuel)
  {
    var lib := LibPath(cratePath);
    var main := MainPath(cratePath);
    var afterLib := if lib in fs.present then FileSpec(fs, lib, [], cratePath, fuel) else Built([], []);
    if lib in fs.present {
      assert afterLib.diagnostics <= CrateSpec(fs, cratePath, manifestName, fuel).1;
      FileSpecFuel(fs, lib, [], cratePath, fuel);
    }
    if main in fs.present {
      var m := FileSpec(fs, main, afterLib.children, cratePath, fuel);
      assert CrateSpec(fs, cratePath, manifestName, fuel).1 == afterLib.diagnostics + m.diagnostics;
      assert WithinDepth(m.diagnostics);
      FileSpecFuel(fs, main, afterLib.children, cratePath, fuel);
    }
  }

  /** The file loop only adds reports: those of the first `i` items stay
      in front of those of all of them. */
  lemma {:induction false} FileFoldKeepsReports(fs: FileSystem, filePath: Path, items: seq<Item>, i: nat,
                                                acc: Built, parentPath: Path, fuel: nat)
    requires i <= |items|
    ensures FileFold(fs, filePath, items[..i], acc, parentPath, fuel).diagnostics <=
      FileFold(fs, filePath, items, acc, parentPath, fuel).diagnostics
    decreases |items|
  {
    if i == |items| {
      assert items[..i] == items;
    } else {
      var n := |items| - 1;
      assert items[..n][..i] == items[..i];
      FileFoldKeepsReports(fs, filePath, items[..n], i, acc, parentPath, fuel);
      FileItemKeepsReports(fs, filePath, items[n], FileFold(fs, filePath, items[..n], acc, parentPath, fuel), parentPath, fuel);
    }
  }

  /** A file `<dir>/<name>.rs` that declares `mod <name>;` anywhere among its
      items resolves that module to itself, so `process_file` on it never
      bottoms out: however large the depth bound, it is reached. */
  lemma {:induction false} SelfDeclaringFileRecursesForever(fs: FileSystem, dir: Path, name: string, vis: Vis,
                                                          items: seq<Item>, j: nat,
                                                          children: seq<Node>, parentPath: Path, fuel: nat)
    requires ModFile(dir, name) in fs.present && ModFile(dir, name) in fs.files
    requires fs.files[ModFile(dir, name)] == Parsed(items)
    requires j < |items| && items[j] == Mod(name, vis, External)
    ensures DepthExceeded(ModFile(dir, name)) in FileSpec(fs, ModFile(dir, name), children, parentPath, fuel).diagnostics
    decreases fuel
  {
    var f := ModFile(dir, name);
    if fuel > 0 {
      assert Parent(f) == dir;
      assert ModFile(Parent(f), name) == f;
      SelfDeclaringFileRecursesForever(fs, dir, name, vis, items, j, [], f, fuel - 1);
      var sub := FileSpec(fs, f, [], f, fuel - 1);
      assert ExternalModule(fs, f, name, fuel - 1) == sub;
      var acc := Built(children, []);
      var before := FileFold(fs, f, items[..j], acc, parentPath, fuel - 1);
      var upTo := FileFold(fs, f, items[..j + 1], acc, parentPath, fuel - 1);
      assert items[..j + 1][..j] == items[..j];
      assert upTo == FileItem(fs, f, items[j], before, parentPath, fuel - 1);
      assert upTo.diagnostics == before.diagnostics + sub.diagnostics;
      var all := FileFold(fs, f, items, acc, parentPath, fuel - 1);
      FileFoldKeepsReports(fs, f, items, j + 1, acc, parentPath, fuel - 1);
      assert FileSpec(fs, f, children, parentPath, fuel) == all;
      var k :| 0 <= k < |sub.diagnostics| && sub.diagnostics[k] == DepthExceeded(f);
      assert all.diagnostics[|before.diagnostics| + k] == DepthExceeded(f);
    }
  }

  /** `src/lib.rs` declares `mod foo;`, `src/foo.rs` holds `pub struct Bar;` and
      `impl Bar { fn baz(&self) {} }`, and there is no `src/main.rs` nor manifest:
      the root "unknown_crate" holds module foo, which holds struct Bar with the
      one method baz; the missing `main.rs` is reported. Every node below the
      root records `src/lib.rs`, the file that declared module foo. */
  lemma ExternalModuleScenario()
    ensures
      var lib := [CurDir, Normal("src"), Normal("lib.rs")];
      var foo := [CurDir, Normal("src"), Normal("foo.rs")];
      var fs := FileSystem({lib, foo}, map[
        lib := Parsed([Mod("foo", Inherited, External)]),
        foo := Parsed([Struct("Bar", Public), Impl(PathType(["Bar"]), [ImplFn("baz", Inherited, false)])])]);
      CrateSpec(fs, [CurDir], None, 2) ==
        (Node("unknown_crate", "crate", "pub", false,
           [Node("foo", "mod", "private", false,
              [Node("Bar", "struct", "pub", false, [Node("baz", "method", "private", false, [], lib)], lib)],
              lib)],
           [CurDir]),
         [NoEntryFile([CurDir])])
  {
    var lib := [CurDir, Normal("src"), Normal("lib.rs")];
    var foo := [CurDir, Normal("src"), Normal("foo.rs")];
    var libItems := [Mod("foo", Inherited, External)];
    var fooItems := [Struct("Bar", Public), Impl(PathType(["Bar"]), [ImplFn("baz", Inherited, false)])];
    var fs := FileSystem({lib, foo}, map[lib := Parsed(libItems), foo := Parsed(fooItems)]);
    var main := MainPath([CurDir]);
    assert main[2] == Normal("main.rs") && lib[2] == Normal("lib.rs") && foo[2] == Normal("foo.rs");
    assert "main.rs"[0] != "lib.rs"[0] && "main.rs"[0] != "foo.rs"[0];
    assert main != lib && main != foo;
    assert LibPath([CurDir]) == lib && main !in fs.present;
    assert "foo" + ".rs" == "foo.rs";
    assert Parent(lib) == [CurDir, Normal("src")] && ModFile(Parent(lib), "foo") == foo;
    var bar := Node("Bar", "struct", "pub", false, [], lib);
    var baz := Node("baz", "method", "private", false, [], lib);
    ExternalFooFile(fs, lib, foo, fooItems);
    assert libItems[..0] == [];
    var fooNode := Node("foo", "mod", "private", false, [bar.(children := [baz])], lib);
    assert FileSpec(fs, lib, [], [CurDir], 2) == Built([fooNode], []);
    assert CrateName([CurDir], None) == "unknown_crate";
    assert CrateSpec(fs, [CurDir], None, 2).0.children == [fooNode];
    assert CrateSpec(fs, [CurDir], None, 2).1 == [NoEntryFile([CurDir])];
    assert CrateSpec(fs, [CurDir], None, 2).0 == Node("unknown_crate", "crate", "pub", false, [fooNode], [CurDir]);
  }

  /** The foo.rs half of ExternalModuleScenario: the struct and its method. */
  lemma ExternalFooFile(fs: FileSystem, lib: Path, foo: Path, fooItems: seq<Item>)
    requires foo in fs.files && fs.files[foo] == Parsed(fooItems)
    requires fooItems == [Struct("Bar", Public), Impl(PathType(["Bar"]), [ImplFn("baz", Inherited, false)])]
    ensures FileSpec(fs, foo, [], lib, 1) ==
      Built([Node("Bar", "struct", "pub", false, [Node("baz", "method", "private", false, [], lib)], lib)], [])
  {
    var bar := Node("Bar", "struct", "pub", false, [], lib);
    var baz := Node("baz", "method", "private", false, [], lib);
    assert fooItems[..1] == [Struct("Bar", Public)] && fooItems[..1][..0] == [];
    assert Fold(fooItems[..1], [], lib) == [bar];
    var implItems := [ImplFn("baz", Inherited, false)];
    assert implItems[..0] == [];
    assert MethodNodes(implItems, lib) == [baz];
    assert FindType([bar], "Bar") == Some(0);
    assert FileFold(fs, foo, fooItems[..1], Built([], []), lib, 0) == Built([bar], []);
    assert GetSelfType(PathType(["Bar"])) == "Bar";
    assert Step(fooItems[1], [bar], lib) == [bar.(children := [baz])];
    assert FileFold(fs, foo, fooItems, Built([], []), lib, 0).children == [bar.(children := [baz])];
  }
}
