# melange: declaration tree and rule-marker correlator, in Dafny

melange is a Rust tool that lints Rust code against rules written in plain language. This project models and proves the two pieces of sequential logic at its core.

**The declaration-tree builder and renderer** (`src/parser/structure.rs`).
- `parse_crate` starts from `src/lib.rs` and then `src/main.rs` and builds a tree of `ModuleNode`s:
  - one node per module, struct, enum and function;
  - methods of `impl` blocks are hung under the first struct or enum of the same name;
  - a `mod name;` declared in a file is resolved to a file.
- `print_module_tree` renders that tree as box-drawing lines.
- Modules:
  - `Syntax`: the parsed items and the file system as abstract data.
  - `Structure`: the tree as a value and the functions that specify each step.
  - `StructureBuilder`: the imperative builder. It is a class `ModuleNode` whose `children` sequence the builder methods extend in place. Each method is proved equal to its specification function.
  - `StructureLemmas`: what those functions promise.
  - `TreeRender`: the renderer, with a recursive method proved against a line-producing function and the lemmas about that function.

**The rule-marker correlator** (`src/rules/generic.rs` and `src/parser/rust_parser.rs`).
- `extract_rule_map` finds every line matching `// +#AIRULE: +(.+)`. It keys the captured description by the 1-based number of the line after the comment.
- `parse_rust_file` pairs each top-level item whose start line is such a key with that rule. Enums, functions and structs become a `RuleWithCode`; any other kind of item is reported as unsupported.
- `RuleWithCode` holds the file text and a range. `get_code_block` slices the range, and `to_prompt` fills a fixed template.
- Modules:
  - `Rules` models `str::lines`, models the marker regex as a leftmost-first greedy matcher and proves it equal to a relational definition of a match, and states the map, the record and the prompt operations.
  - `RustParser` models the correlation loop as a method proved against a function, and proves its result on the lint example `lint-examples/rust_enum.rs`.

`Rule`'s `Display` is `Rules.RuleText`, which returns the description unchanged.

## Model

| member | source | states |
|---|---|---|
| Syntax.Parent | src/parser/structure.rs:110 | the directory of a file is the path minus its last component; a path that is empty or ends at the root gives the empty path |
| Syntax.FileName | src/parser/structure.rs:33 | a name exactly when the last component is a normal one, and then that component |
| Structure.GetVisibility | src/parser/structure.rs:220-240 | "pub" exactly for `pub`, "private" exactly for no visibility written, "pub(<first segment>)" for a restriction with a path (self, crate and super included), "restricted" for one without |
| Structure.GetSelfType | src/parser/structure.rs:208-219 | the last segment of a path type; the empty string for a path without segments and for every other type |
| Structure.FallbackCrateName | src/parser/structure.rs:31-37 | the crate directory's last component when it is a name, else "unknown_crate" |
| Structure.FindType | src/parser/structure.rs:186-189 | the first index whose child is a struct or enum with the given name; None exactly when no child is |
| Structure.CrateName | src/parser/structure.rs:15-30 | specification: the manifest's `package.name`, or else the fallback name; stated by `StructureLemmas.CrateRoot` |
| Structure.Step | src/parser/structure.rs:130-207 | specification of `process_item`: the parent's children afterwards; stated by `StepAppendsOne`, `ImplAttachesToFirstType`, `UnattachedImplChangesNothing` and `StepInvariants` |
| Structure.Fold | src/parser/structure.rs:176-178 | specification of the inline-module loop (also at lines 104-106): `process_item` on each item in turn; stated by `FoldInvariants` and `StepAppendsOne`, and proved equal to the loop by `StructureBuilder.ProcessItems` |
| Structure.FileSpec | src/parser/structure.rs:68-128 | specification of `process_file`: the children and reports after reading, parsing and walking a file; stated by `FileSpecInvariants`, `FileSpecPaths` and `FileSpecFuel` |
| Structure.FileFold | src/parser/structure.rs:87-127 | specification of the item loop of `process_file`; stated by `FileFoldInvariants` and `FileFoldPaths` |
| Structure.FileItem | src/parser/structure.rs:88-126 | specification of one iteration of that loop; stated by `FileItemInvariants` and `ExternalModuleResolution` |
| Structure.ExternalModule | src/parser/structure.rs:109-121 | specification of resolving `mod name;`; stated by `ExternalModuleResolution` and `ExternalModuleInvariants` |
| Structure.CrateSpec | src/parser/structure.rs:39-66 | specification of `parse_crate`; stated by `CrateRoot`, `CrateNoEntryIff`, `CrateLibBeforeMain` and `CrateFacts` |
| Structure.MethodNodes | src/parser/structure.rs:191-202 | exactly one node per `fn` of the block (so never more than its items), each a "method" leaf carrying the parent's path |
| StructureBuilder.ModuleNode.constructor | src/parser/structure.rs:5-13 | a node with the given header fields and no children |
| StructureBuilder.ProcessItem | src/parser/structure.rs:130-207 | the parent's children afterwards are `Step` of the item applied to its children before |
| StructureBuilder.FindTypeIndex | src/parser/structure.rs:186-189 | the loop finds the same index as `FindType` |
| StructureBuilder.AttachMethods | src/parser/structure.rs:191-202 | child k gets the impl's method nodes appended in block order; every other child is unchanged |
| StructureBuilder.ProcessItems | src/parser/structure.rs:176-178 | processing a module's inline items one after the other gives `Fold` of them |
| StructureBuilder.ProcessExternal | src/parser/structure.rs:109-121 | the module's children and reports are those of `ExternalModule`: `<name>.rs` first, then `<name>/mod.rs` |
| StructureBuilder.ProcessFileItem | src/parser/structure.rs:88-126 | one iteration of the file loop gives `FileItem` of the children and reports gathered so far |
| StructureBuilder.ProcessFile | src/parser/structure.rs:68-128 | the parent's children and the reports are those of `FileSpec`, including the read and parse failures |
| StructureBuilder.ParseCrate | src/parser/structure.rs:39-66 | root and reports equal `CrateSpec` |
| StructureLemmas.ExtendsTransitive | src/parser/structure.rs:130-207 | "only appends, and only adds children to existing nodes" is transitive |
| StructureLemmas.StepAppendsOne | src/parser/structure.rs:132-182 | a struct, enum, fn or mod item appends exactly one node with the item's name, kind, visibility and asyncness and the parent's path. Earlier children are untouched. An inline module's node holds the fold of its items; a nested `mod x;` gets no children |
| StructureLemmas.ImplAttachesToFirstType | src/parser/structure.rs:183-204 | an impl whose type is first found at index k appends its method nodes to child k only; the length and all other children are unchanged |
| StructureLemmas.UnattachedImplChangesNothing | src/parser/structure.rs:183-205 | an impl with no matching struct or enum, and any other item, leave the children unchanged |
| StructureLemmas.ImplBeforeTypeIsDropped | src/parser/structure.rs:183-204 | an impl that comes before its struct is lost: the result is just the struct node |
| StructureLemmas.MethodNodesInBlockOrder | src/parser/structure.rs:191-202 | the j-th impl item, when it is a `fn`, gives the method node at the position counted by the `fn`s before it, with its name, visibility and asyncness; other items add nothing |
| StructureLemmas.StepInvariants | src/parser/structure.rs:130-207 | one item extends the children, keeps them well formed, and adds one node per declaration |
| StructureLemmas.FoldInvariants | src/parser/structure.rs:176-178 | the same for a sequence of items |
| StructureLemmas.FileSpecInvariants | src/parser/structure.rs:68-128 | processing a file extends the children, keeps them well formed and never reports a missing entry file |
| StructureLemmas.FileFoldInvariants | src/parser/structure.rs:87-127 | the file loop extends, keeps well formed, stays free of entry reports, and adds one node per declaration |
| StructureLemmas.FileItemInvariants | src/parser/structure.rs:88-126 | the same for one iteration of that loop |
| StructureLemmas.ExternalModuleInvariants | src/parser/structure.rs:109-121 | a resolved module's children are well formed and no entry-file report arises |
| StructureLemmas.ExternalModuleResolution | src/parser/structure.rs:108-123 | `mod name;` always pushes one mod node whose path is the declaring file. Its children come from `<name>.rs` when that exists (whether or not `<name>/mod.rs` does), else from `<name>/mod.rs`. With neither, it is empty and nothing is reported |
| StructureLemmas.CrateRoot | src/parser/structure.rs:39-66 | the root is a public, non-async "crate" with the crate path, named by the manifest or else by the fallback, with a well-formed tree below |
| StructureLemmas.CrateNoEntryIff | src/parser/structure.rs:59-63 | the "neither lib.rs nor main.rs" report appears exactly when `src/main.rs` is missing, whether or not `src/lib.rs` exists |
| StructureLemmas.CrateLibBeforeMain | src/parser/structure.rs:56-61 | the children built from `lib.rs` come first under the root, and `main.rs` only extends them |
| StructureLemmas.CrateFacts | src/parser/structure.rs:39-66 | the three crate facts together |
| StructureLemmas.StepShape | src/parser/structure.rs:130-207 | every node a step adds carries the parent's path |
| StructureLemmas.FileSpecPaths | src/parser/structure.rs:93-99 | a node added while processing a file has that file's path if it is a module, else the parent's path |
| StructureLemmas.FileFoldPaths | src/parser/structure.rs:87-127 | the same along the loop |
| StructureLemmas.FileSpecFuel | src/parser/structure.rs:68-128 | once processing a file reports no `DepthExceeded`, one more unit of fuel gives the same children and reports |
| StructureLemmas.FileFoldFuel | src/parser/structure.rs:87-127 | the same for the file loop |
| StructureLemmas.FileItemFuel | src/parser/structure.rs:88-126 | the same for one iteration of it |
| StructureLemmas.ExternalModuleFuel | src/parser/structure.rs:109-121 | the same for resolving `mod name;` |
| StructureLemmas.CrateSpecFuel | src/parser/structure.rs:39-66 | a crate built without reaching the bound is built the same with a larger one |
| StructureLemmas.SelfDeclaringFileRecursesForever | src/parser/structure.rs:113-118 | a file `<dir>/<name>.rs` that declares `mod <name>;` anywhere among its items resolves that module to itself, so whatever the fuel bound it is reached and reported |
| StructureLemmas.FileFoldKeepsReports | src/parser/structure.rs:87-127 | the file loop only adds reports: those of the first i items stay in front of those of all of them |
| StructureLemmas.ExternalModuleScenario | src/parser/structure.rs:39-128 | a lib.rs with `mod foo;` and foo.rs with `struct Bar` and `impl Bar { fn baz }` give mod foo holding Bar holding baz, named "unknown_crate", and report the missing main.rs |
| TreeRender.NodeInfo | src/parser/structure.rs:261-270 | the label by kind: "mod X", "struct X", "enum X", "fn [async ]X", else the bare name; used by every line lemma |
| TreeRender.RenderModules | src/parser/structure.rs:247-285 | the lines of `print_modules`; stated by `RenderModulesMatch` and `SiblingLine` |
| TreeRender.TreeLines | src/parser/structure.rs:242-245 | the lines of `print_module_tree`; stated by `TreeLinesShape` |
| TreeRender.RenderNode | src/parser/structure.rs:249-283 | specification of one iteration of `print_modules`: the node's line, then its children's lines under the extended flags; stated by `RenderNodeMatches` |
| TreeRender.RenderPrefix | src/parser/structure.rs:248-284 | specification of the first i iterations of that loop; stated by `RenderPrefixMatches`, `RenderPrefixSplit` and `SiblingLine` |
| TreeRender.Connector | src/parser/structure.rs:252-258 | specification of the connector printed for one ancestor; stated by `ConnectorSlots` and the example lines |
| TreeRender.Branch | src/parser/structure.rs:260 | specification of the branch mark; stated by `SiblingLine` ("└── " exactly for the last sibling) |
| TreeRender.VisibilitySuffix | src/parser/structure.rs:272-276 | specification of the visibility suffix; stated by `SuffixOmittedIffPrivate` and the example lines |
| TreeRender.Connectors | src/parser/structure.rs:252-258 | four characters per ancestor |
| TreeRender.ConnectorSlots | src/parser/structure.rs:252-258 | the connectors of the first i ancestors take 4 * i characters, and the i-th ancestor contributes "    " when it was a last sibling and "│   " otherwise, between the connectors of the ancestors before and after it |
| TreeRender.ConnectorsConcat | src/parser/structure.rs:252-258 | the connectors of two flag sequences in a row are the connectors of each, in the same order |
| TreeRender.PrintModules | src/parser/structure.rs:247-285 | the lines the recursive loop prints equal `RenderModules` |
| TreeRender.PrintModuleTree | src/parser/structure.rs:242-245 | the printed lines equal `TreeLines` |
| TreeRender.RenderNodeMatches | src/parser/structure.rs:259-283 | a node's lines are its own line and then its subtree's, one per node in preorder. Each node below has its own flags, which extend the node's; its line is exactly the connectors of its ancestors' flags, the branch mark its own flag selects, then its label and suffix |
| TreeRender.RenderPrefixMatches | src/parser/structure.rs:248-284 | the same exact lines, node by node in preorder, for the first i siblings |
| TreeRender.RenderModulesMatch | src/parser/structure.rs:247-285 | the same exact lines, node by node in preorder, for a whole sibling list |
| TreeRender.TreeLinesShape | src/parser/structure.rs:242-245 | "crate <name>" and then one line per descendant in preorder: its connectors, its branch mark and its text, so it ends in that text |
| TreeRender.SiblingLine | src/parser/structure.rs:249-278 | sibling i's line has the ancestor connectors, "└── " exactly for the last sibling and "├── " otherwise, then its text |
| TreeRender.RenderPrefixSplit | src/parser/structure.rs:248 | the lines of the first i siblings are a prefix of those of the first j |
| TreeRender.SuffixOmittedIffPrivate | src/parser/structure.rs:272-276 | the ": <vis>" suffix is missing exactly for items with no visibility written |
| TreeRender.PrintedExample | src/parser/structure.rs:242-285 | the five exact lines of a crate with `mod foo` (holding `struct Bar` with `async fn baz`) and `fn run` |
| TreeRender.ExampleBazLines | src/parser/structure.rs:252-278 | the line of an async method two levels down: "│       └── fn async baz" |
| TreeRender.ExampleBarLine | src/parser/structure.rs:252-278 | the line of a public struct under a non-last module |
| TreeRender.ExampleBarLines | src/parser/structure.rs:247-285 | the struct's line followed by its method's |
| TreeRender.ExampleFooLines | src/parser/structure.rs:247-285 | a non-last module's three lines |
| TreeRender.ExampleRunLines | src/parser/structure.rs:259-278 | a last, private function: "└── fn run" with no suffix |
| Rules.MatchAt | src/rules/generic.rs:11 | the matcher at one start position; stated by `MatchAtSpec` against the relational `MarkerAt` |
| Rules.CaptureAfter | src/rules/generic.rs:11 | the ` +(.+)` tail of the matcher; stated by `CaptureAfterText` |
| Rules.FindFrom | src/rules/generic.rs:81 | the unanchored search for the leftmost match; stated by `FindFromSpec` |
| Rules.Captures | src/rules/generic.rs:81-83 | `AIRULE.captures(line)` and its group 1; stated by `CapturesSpec` |
| Rules.RuleText | src/rules/generic.rs:18-22 | `Display` of a rule: its description |
| Rules.RulePairs | src/rules/generic.rs:79-89 | the `enumerate`/`filter_map` pairs (i + 2, rule); stated by `RulePairsStep` |
| Rules.Collect | src/rules/generic.rs:90 | `collect` into a map, later keys overwriting; stated by `CollectStep` |
| Rules.ExtractRuleMap | src/rules/generic.rs:76-91 | `extract_rule_map`; stated by `ExtractRuleMapKeys`, `ExtractRuleMapValues` and `ExtractRuleMapSize` |
| Rules.ToPrompt | src/rules/generic.rs:65-74 | `to_prompt`: the template filled with the rule and the code block; stated by `PromptRoundTrip` and `PromptAmbiguous` |
| Rules.NonNewlineRun | src/rules/generic.rs:11 | the longest run without a newline starting at i (what `.+` can consume) |
| Rules.StripCR | src/rules/generic.rs:78 | exactly one final carriage return is removed; a line without one is unchanged |
| Rules.SplitLines | src/rules/generic.rs:78 | no line of `str::lines` contains a newline |
| Rules.SplitClean | src/rules/generic.rs:78 | a line without `\n` or a final `\r`, followed by a newline, is the first line |
| Rules.SplitTerminated | src/rules/generic.rs:78 | newline-terminated clean lines split back into themselves |
| Rules.SplitTerminatedPrefix | src/rules/generic.rs:78 | the first n clean lines come back unchanged whatever follows them |
| Rules.SplitTerminatedAppend | src/rules/generic.rs:78 | clean leading lines come back unchanged before any tail |
| Rules.SplitCRLF | src/rules/generic.rs:78 | any newline-free line followed by "\r\n" is split off without the carriage return |
| Rules.SplitKeepsFinalCR | src/rules/generic.rs:78 | any non-empty last line without '\n' comes back as it is, a final `\r` included; only a `\r` in front of '\n' is dropped |
| Rules.SpaceRun | src/rules/generic.rs:11 | the longest space run starting at i (what ` +` can consume) |
| Rules.Spaces | src/rules/generic.rs:11 | n spaces |
| Rules.CaptureAfterText | src/rules/generic.rs:11 | a capture after the marker is a non-empty newline-free slice, preceded by one or more of the spaces there |
| Rules.SpaceRunForced | src/rules/generic.rs:11 | a space run ended by a non-space is the maximal one |
| Rules.SpaceRunBound | src/rules/generic.rs:11 | every space run is at most the maximal one |
| Rules.NonNewlineBound | src/rules/generic.rs:11 | every newline-free slice is at most the maximal run |
| Rules.MarkerShape | src/rules/generic.rs:11 | a match at p is "//", one or more spaces, "#AIRULE:", one or more spaces and a non-empty newline-free description |
| Rules.MarkerWitness | src/rules/generic.rs:11 | text of that shape is a match |
| Rules.MatchAtNone | src/rules/generic.rs:11 | when the matcher fails at p, no match starts at p |
| Rules.MatchAtSome | src/rules/generic.rs:11 | when it succeeds, it took the maximal first space run and the whole rest of the line after the maximal second one. When nothing follows those spaces and there are two or more, it backs off one space and captures " " |
| Rules.MatchedText | src/rules/generic.rs:11 | the captured text lies verbatim in the line after between one space and the whole second run |
| Rules.MatchAtWitness | src/rules/generic.rs:11 | what the matcher returns at p is a match at p |
| Rules.MatchAtOutranks | src/rules/generic.rs:11 | and it ranks above every other match at p in the greedy order |
| Rules.MatchAtSpec | src/rules/generic.rs:11 | the matcher at p returns None exactly when no match starts at p, and otherwise the greedy-preferred one |
| Rules.FindFromNone | src/rules/generic.rs:81 | the search from p finds nothing exactly when no position from p on matches |
| Rules.FindFromFirst | src/rules/generic.rs:81 | what it finds is the match at the leftmost matching position |
| Rules.FindFromSpec | src/rules/generic.rs:81 | both of these together |
| Rules.CapturesSpec | src/rules/generic.rs:81-83 | a line has a capture exactly when it contains a match anywhere, and the capture is that of the leftmost start, greedy at that start |
| Rules.MarkerPrefix | src/rules/generic.rs:11 | "// #AIRULE: " has the pattern's pieces in place |
| Rules.PlainMatchAt | src/rules/generic.rs:11 | "// #AIRULE: d" matches at its start with capture d, when d is non-empty, has no newline and does not start with a space |
| Rules.MarkerLine | src/rules/generic.rs:81-83 | an indented marker line captures its description: the match is unanchored |
| Rules.MarkerLineFlush | src/rules/generic.rs:81-83 | a marker line at the left margin captures its description |
| Rules.LeadingSpacesSkipped | src/rules/generic.rs:81 | leading spaces do not change what the search finds |
| Rules.MarkerNeedsDescription | src/rules/generic.rs:11 | a marker followed by exactly one space and nothing else, at any indentation, is no match |
| Rules.MarkerAllSpaces | src/rules/generic.rs:11 | a marker followed by two or more spaces and nothing else, at any indentation, captures one space, not a trimmed empty string |
| Rules.LineCaptures | src/rules/generic.rs:78-81 | the capture of each line, in order |
| Rules.MarkerLinesStep | src/rules/generic.rs:80-89 | a further line adds its index to the matching ones exactly when it matches |
| Rules.CollectStep | src/rules/generic.rs:90 | collecting into a map lets a later pair overwrite an earlier key |
| Rules.RulePairsStep | src/rules/generic.rs:79-90 | a further matching line i adds key i+2 with its capture; a non-matching one adds nothing |
| Rules.RuleMapStep | src/rules/generic.rs:79-90 | that step keeps "keys are the matching lines plus 2, values their captures" and grows the map by one exactly for a match |
| Rules.CaptureRuleMap | src/rules/generic.rs:76-91 | the collected map has exactly the matching indices plus 2 as keys with their captures, and as many entries as matching lines |
| Rules.ExtractRuleMapKeys | src/rules/generic.rs:76-91 | k is a key exactly when line k-2 of the text matches |
| Rules.ExtractRuleMapValues | src/rules/generic.rs:76-91 | the rule under k is the capture of line k-2 |
| Rules.ExtractRuleMapSize | src/rules/generic.rs:76-91 | the map has one entry per matching line: nothing is overwritten |
| Rules.RuleForMarkerLine | src/rules/generic.rs:85 | a marker on line k (0-based) gives the rule under key k+2, the 1-based number of the next line |
| Rules.NewRuleWithCode | src/rules/generic.rs:46-63 | rule, content, range, code type and item name are stored unchanged |
| Rules.GetCodeBlock | src/rules/generic.rs:40-42 | the block has length end-start, and the content is the text before the range, the block, then the text after |
| Rules.FindSub | src/rules/generic.rs:65-74 | a found position is at or after i and holds the pattern |
| Rules.FindSubFirst | src/rules/generic.rs:65-74 | the search returns the first position holding the pattern |
| Rules.MiddleFoundAfterRule | src/rules/generic.rs:68-69 | in a filled template, the first "<rule>\n        <code>" is right after the rule when the rule has no '<' |
| Rules.ParseFilledTemplate | src/rules/generic.rs:65-74 | a filled template reads back as its rule and code |
| Rules.PromptRoundTrip | src/rules/generic.rs:65-74 | `to_prompt` is the template with the rule between the `<rule>` tags and the code block verbatim between the `<code>` tags: both read back |
| Rules.PromptAmbiguous | src/rules/generic.rs:65-74 | because closing tags equal opening ones, two records with different rules can give the same prompt |
| RustParser.CodeType | src/parser/rust_parser.rs:15-23 | specification of the kind match: "enum", "function" and "struct" for those kinds and nothing for any other kind, which is skipped; stated by `CorrelateSpec` (a record exactly for a ruled item of a supported kind) and `RecordsFromMarkers` (the record's code type) |
| RustParser.Record | src/parser/rust_parser.rs:24-31 | specification of the record built for a ruled item; stated by `RecordsFromMarkers` (its rule, text, range, name and code type) and `NewRuleWithCode` |
| RustParser.Correlate | src/parser/rust_parser.rs:12-33 | the records the loop collects; stated by `CorrelateSpec`, `RecordsFromMarkers` and `RuledItemsAccounted` |
| RustParser.Skipped | src/parser/rust_parser.rs:19-22 | the "Unsupported item type" reports; stated by `RuledItemsAccounted` |
| RustParser.ParseRustFile | src/parser/rust_parser.rs:6-36 | the loop's records and printed reports equal `Correlate` and `Skipped` over the file's own rule map |
| RustParser.SelectedSpec | src/parser/rust_parser.rs:12-23 | the selected positions increase and are exactly the items whose line has a rule and whose kind is enum, fn or struct |
| RustParser.CorrelateSelected | src/parser/rust_parser.rs:12-33 | one record per selected item, in order, each built from that item |
| RustParser.CorrelateSpec | src/parser/rust_parser.rs:11-35 | a record exists for an item exactly when its line has a rule and its kind is supported; at most one per item, in item order, never more than the items |
| RustParser.RecordsFromMarkers | src/parser/rust_parser.rs:14-31 | each record's rule is the capture of the line above its item. It holds the whole file text, the item's range, its name, and "enum", "function" or "struct" by kind |
| RustParser.RuledItemsStep | src/parser/rust_parser.rs:14 | a further item with a rule adds its position to the ruled ones |
| RustParser.RuledItemsAccounted | src/parser/rust_parser.rs:14-23 | every item with a rule yields one record or one "Unsupported item type" report, and the loop goes on |
| RustParser.FixtureHeadClean | lint-examples/rust_enum.rs:1-14 | the first fourteen lines of the example are clean, with the markers on lines 1, 9 and 14 |
| RustParser.FixtureRulesPlain | lint-examples/rust_enum.rs:1-14 | the three descriptions are plain text |
| RustParser.HeadMarkerRule | src/rules/generic.rs:76-91 | a marker line among clean leading lines gives its rule under the next line's number, whatever follows |
| RustParser.FixtureRuleMap | lint-examples/rust_enum.rs:1-14 | the example's rule map has keys 2, 10 and 15 with the three descriptions |
| RustParser.CorrelateFixtureItems | src/parser/rust_parser.rs:12-33 | with those keys, enum `Cake` and fn `add` get records and `mod cakes` is reported as unsupported |
| RustParser.FixtureCorrelation | src/parser/rust_parser.rs:42-46 | on the example, the records are those of `Cake` and `add`, `cakes` is skipped, and the result is not empty |

## Left out

- Reading `Cargo.toml` in `get_crate_name`: TOML parsing and file reading are I/O. `ParseCrate` takes the manifest's `package.name` as a parameter, and the `expect` panic on a malformed manifest is not modelled.
- `syn` parsing, spans and `to_token_stream`: items are abstract values. A file is given as its parsed items or as unparsable, and an item of `parse_rust_file` as a record with a kind, a name, a start line and a range.
- `fs::read_to_string` and `Path::exists`: these are a set of existing paths plus a map of file contents.
- `eprintln!`/`println!`: the builder returns its reports as values and the renderer returns its lines.
- The `regex` crate: the one pattern is modelled directly as a leftmost-first greedy matcher.
- StructureBuilder.ProcessFile: bounded by a `fuel` argument, one unit per file. The source recurses without bound, and forever on a file `x.rs` that declares `mod x;`. When fuel runs out the model reports `DepthExceeded`, which the source has no counterpart for. Once no `DepthExceeded` is reported, more fuel changes nothing (`StructureLemmas.FileSpecFuel`, `StructureLemmas.CrateSpecFuel`).
- RustParser.ParseRustFile: the `expect` panics when the file cannot be read or `syn` cannot parse it (`rust_parser.rs` lines 7-8) are not modelled. The method takes the file's text and its parsed items as given.
- Rules.GetCodeBlock: requires the range to lie within the text (`RangeInBounds`). The panic that the slice in `generic.rs` lines 40-42 raises on an out-of-range range is not modelled. Neither is the panic on a range that splits a UTF-8 character, since ranges are character offsets.
- Rules.ToPrompt: inherits that requirement through the code block.
- `rust_parser.rs` lines 24-31 call a six-argument `RuleWithCode::new` that `generic.rs` does not define. The model uses the five-argument constructor in `generic.rs` and gives it the item's range.
- Ranges are offsets into a sequence of characters, not UTF-8 bytes.
- `Arc` sharing of the file text: the text is an immutable sequence held by value.
- Rules.PromptRoundTrip: only for rules without '<', because the closing tags equal the opening ones and such a rule can make the prompt ambiguous (`Rules.PromptAmbiguous`).
- RustParser.FixtureItems: the start lines and ranges of the three items are taken as given, since they come from `syn`.
- The tail of the lint example: lines 15-32 are part of the text, but only lines 1-14 are shown to split back unchanged.
- A node's `path` follows the code: a `mod` node gets the path of the file that declares it, and every other item gets its parent node's path (`StructureLemmas.FileSpecPaths`). So the items of lib.rs and main.rs get the crate path, and the items of an external module's file get the path of the file that declares the module, not of the file they are written in.
- `src/engine/llm_engine.rs`, `src/config`, `src/cli`, `src/main.rs` and `load_project_rules`: network calls, configuration and command-line glue are not part of this model.
