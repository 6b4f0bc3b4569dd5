/**
 * src/parser/rust_parser.rs: `parse_rust_file`, which pairs every top-level
 * item of a file with the rule whose marker comment sits on the line just
 * above the item.
 */
module RustParser {
  import opened Wrappers
  import opened Rules

  /** The kind of a top-level item, as far as the correlator tells them apart. */
  datatype ItemKind = EnumKind | FnKind | StructKind | ModKind | ImplKind | OtherKind

  /** A parsed top-level item: its kind, its identifier, the 1-based line its
      span starts on and its range in the file's text. */
  datatype SourceItem = SourceItem(kind: ItemKind, ident: string, startLine: nat, range: ByteRange)

  /** The `code_type` of the kinds the correlator supports. */
  function CodeType(kind: ItemKind): Option<string>
  {
    match kind
    case EnumKind => Some("enum")
    case FnKind => Some("function")
    case StructKind => Some("struct")
    case _ => None
  }

  /** The message printed for an item that has a rule but no supported kind. */
  const Unsupported: string := "Unsupported item type"

  /** The item gets a record: its start line has a rule and its kind is supported. */
  predicate Supported(ruleMap: map<nat, Rule>, item: SourceItem)
  {
    item.startLine in ruleMap && CodeType(item.kind).Some?
  }

  /** The item has a rule but is skipped with a diagnostic. */
  predicate Unsupported?(ruleMap: map<nat, Rule>, item: SourceItem)
  {
    item.startLine in ruleMap && CodeType(item.kind).None?
  }

  function Record(content: string, ruleMap: map<nat, Rule>, item: SourceItem): RuleWithCode
    requires Supported(ruleMap, item)
  {
    NewRuleWithCode(RuleText(ruleMap[item.startLine]), content, CodeType(item.kind).value, item.ident, item.range)
  }

  /** The records the loop collects from `items`, in item order. */
  function Correlate(content: string, ruleMap: map<nat, Rule>, items: seq<SourceItem>): seq<RuleWithCode>
  {
    if items == [] then []
    else
      var last := items[|items| - 1];
      Correlate(content, ruleMap, items[..|items| - 1]) +
      (if Supported(ruleMap, last) then [Record(content, ruleMap, last)] else [])
  }

  /** The diagnostics the loop prints while walking `items`. */
  function Skipped(ruleMap: map<nat, Rule>, items: seq<SourceItem>): seq<string>
  {
    if items == [] then []
    else
      var last := items[|items| - 1];
      Skipped(ruleMap, items[..|items| - 1]) + (if Unsupported?(ruleMap, last) then [Unsupported] else [])
  }

  /** `parse_rust_file`, given the text of the file and its parsed top-level
      items: the records, and the diagnostics printed on the way. */
  method ParseRustFile(content: string, items: seq<SourceItem>) returns (rules: seq<RuleWithCode>, diagnostics: seq<string>)
    ensures rules == Correlate(content, ExtractRuleMap(content), items)
    ensures diagnostics == Skipped(ExtractRuleMap(content), items)
  {
    var ruleMap := ExtractRuleMap(content);
    rules := [];
    diagnostics := [];
    for i := 0 to |items|
      invariant rules == Correlate(content, ruleMap, items[..i])
      invariant diagnostics == Skipped(ruleMap, items[..i])
    {
      assert items[..i + 1][..i] == items[..i];
      var item := items[i];
      var startLine := item.startLine;
      if startLine in ruleMap {
        var rule := ruleMap[startLine];
        var codeType: string;
        match item.kind {
          case EnumKind => codeType := "enum";
          case FnKind => codeType := "function";
          case StructKind => codeType := "struct";
          case _ =>
            diagnostics := diagnostics + [Unsupported];
            continue;
        }
        var record := NewRuleWithCode(RuleText(rule), content, codeType, item.ident, item.range);
        rules := rules + [record];
      }
    }
    assert items[..|items|] == items;
  }

  /** The positions of the items that get a record, in increasing order. */
  ghost function Selected(ruleMap: map<nat, Rule>, items: seq<SourceItem>): seq<nat>
  {
    if items == [] then []
    else
      Selected(ruleMap, items[..|items| - 1]) +
      (if Supported(ruleMap, items[|items| - 1]) then [|items| - 1] else [])
  }

  ghost predicate SelectionOf(sel: seq<nat>, ruleMap: map<nat, Rule>, items: seq<SourceItem>)
  {
    |sel| <= |items| &&
    (forall r :: 0 <= r < |sel| ==> sel[r] < |items| && Supported(ruleMap, items[sel[r]])) &&
    (forall a, b :: 0 <= a < b < |sel| ==> sel[a] < sel[b]) &&
    (forall j :: 0 <= j < |items| && Supported(ruleMap, items[j]) ==> j in sel)
  }

  /** `Selected` lists, in increasing order, exactly the positions of the
      items that get a record. */
  lemma {:induction false} SelectedSpec(ruleMap: map<nat, Rule>, items: seq<SourceItem>)
    ensures SelectionOf(Selected(ruleMap, items), ruleMap, items)
  {
    if items != [] {
      var n := |items| - 1;
      var prefix := items[..n];
      SelectedSpec(ruleMap, prefix);
      var sel0 := Selected(ruleMap, prefix);
      assert forall j :: 0 <= j < n ==> prefix[j] == items[j];
      if Supported(ruleMap, items[n]) {
        var sel := Selected(ruleMap, items);
        assert sel == sel0 + [n];
        assert forall j :: 0 <= j < |items| && Supported(ruleMap, items[j]) ==> j in sel by {
          forall j | 0 <= j < |items| && Supported(ruleMap, items[j]) ensures j in sel {
            if j < n {
              assert j in sel0;
            }
          }
        }
      }
    }
  }

  /** The records are built from the selected items, one each, in order. */
  lemma {:induction false} CorrelateSelected(content: string, ruleMap: map<nat, Rule>, items: seq<SourceItem>)
    ensures var sel := Selected(ruleMap, items);
      var records := Correlate(content, ruleMap, items);
      |records| == |sel| &&
      forall r :: 0 <= r < |sel| ==>
        sel[r] < |items| && Supported(ruleMap, items[sel[r]]) &&
        records[r] == Record(content, ruleMap, items[sel[r]])
  {
    if items != [] {
      var n := |items| - 1;
      var prefix := items[..n];
      CorrelateSelected(content, ruleMap, prefix);
      assert forall j :: 0 <= j < n ==> prefix[j] == items[j];
    }
  }

  /** A record is produced for an item exactly when its start line has a
      rule and its kind is enum, fn or struct; at most one per item, in item
      order, each built from its own item. */
  lemma CorrelateSpec(content: string, ruleMap: map<nat, Rule>, items: seq<SourceItem>)
    ensures var sel := Selected(ruleMap, items);
      var records := Correlate(content, ruleMap, items);
      SelectionOf(sel, ruleMap, items) && |records| == |sel| &&
      forall r :: 0 <= r < |sel| ==> records[r] == Record(content, ruleMap, items[sel[r]])
  {
    SelectedSpec(ruleMap, items);
    CorrelateSelected(content, ruleMap, items);
  }

  /** Every record carries the rule written on the line above its item,
      the text of the whole file, the item's range, its name and the
      `code_type` of its kind. */
  lemma RecordsFromMarkers(content: string, items: seq<SourceItem>)
    ensures var ruleMap := ExtractRuleMap(content);
      var sel := Selected(ruleMap, items);
      var records := Correlate(content, ruleMap, items);
      var lines := SplitLines(content);
      SelectionOf(sel, ruleMap, items) && |records| == |sel| &&
      forall r :: 0 <= r < |records| ==>
        var item := items[sel[r]];
        2 <= item.startLine < |lines| + 2 &&
        Captures(lines[item.startLine - 2]) == Some(records[r].rule) &&
        records[r].fileContent == content && records[r].byteRange == item.range &&
        records[r].meta == RuleMetaData(CodeType(item.kind).value, item.ident)
  {
    ExtractRuleMapValues(content);
    CorrelateSpec(content, ExtractRuleMap(content), items);
  }

  /** The items that have a rule, by position. */
  ghost function RuledItems(ruleMap: map<nat, Rule>, items: seq<SourceItem>): set<nat>
  {
    set j: nat | j < |items| && items[j].startLine in ruleMap
  }

  lemma RuledItemsStep(ruleMap: map<nat, Rule>, items: seq<SourceItem>)
    requires items != []
    ensures var n := |items| - 1;
      RuledItems(ruleMap, items) ==
        RuledItems(ruleMap, items[..n]) + (if items[n].startLine in ruleMap then {n} else {})
  {
    var n := |items| - 1;
    forall j: nat
      ensures j in RuledItems(ruleMap, items) <==>
        j in RuledItems(ruleMap, items[..n]) + (if items[n].startLine in ruleMap then {n} else {})
    {
      if j < n {
        assert items[..n][j] == items[j];
      }
    }
  }

  /** Every item whose line has a rule yields either one record or one
      "Unsupported item type" diagnostic, and the loop goes on after it. */
  lemma {:induction false} RuledItemsAccounted(content: string, ruleMap: map<nat, Rule>, items: seq<SourceItem>)
    ensures |Correlate(content, ruleMap, items)| + |Skipped(ruleMap, items)| == |RuledItems(ruleMap, items)|
    ensures forall j :: 0 <= j < |Skipped(ruleMap, items)| ==> Skipped(ruleMap, items)[j] == Unsupported
  {
    if items == [] {
      assert RuledItems(ruleMap, items) == {};
    } else {
      var n := |items| - 1;
      RuledItemsAccounted(content, ruleMap, items[..n]);
      RuledItemsStep(ruleMap, items);
      assert n !in RuledItems(ruleMap, items[..n]);
    }
  }

  /** The three rule descriptions of lint-examples/rust_enum.rs, written in
      pieces so that the verifier can look inside them:
      "enum names should be one-word only",
      "functions should have a doc comment" and
      "unsafe functions should have a safety comment". */
  const CakeRule := "enum names" + " should be" + " one-word " + "only"
  const AddRule := "functions " + "should hav" + "e a doc co" + "mment"
  const CakesRule := "unsafe fun" + "ctions sho" + "uld have a" + " safety co" + "mment"

  /** The marker lines 1, 9 and 14 of lint-examples/rust_enum.rs. */
  const CakeMarker := "// #AIRULE: " + CakeRule
  const AddMarker := "// #AIRULE: " + AddRule
  const CakesMarker := "// #AIRULE: " + CakesRule

  /** Lines 1-14 of lint-examples/rust_enum.rs, ending with the third marker. */
  function FixtureHead(): seq<string>
  {
    [
      CakeMarker,
      "enum Cake {",
      "    Frosting,",
      "    Icing,",
      "    Coating,",
      "    RlCherry,",
      "}",
      "",
      AddMarker,
      "fn add(a: i32, b: i32) -> i32 {",
      "    a + b",
      "}",
      "",
      CakesMarker
    ]
  }

  /** Lines 15-32 of lint-examples/rust_enum.rs: module `cakes`. */
  function FixtureTail(): seq<string>
  {
    [
      "mod cakes {",
      "    struct MyCake {",
      "        name: String,",
      "        price: i32,",
      "    }",
      "",
      "    fn is_empty_or_zero(arr: &[u8]) -> bool {",
      "        if arr.is_empty() {",
      "            return true;",
      "        }",
      "        unsafe {",
      "            let ptr = arr.as_ptr();",
      "            let new_arr = std::ptr::slice_from_raw_parts(ptr, arr.len());",
      "            let first = (&*new_arr)[0];",
      "            first == 0",
      "        }",
      "    }",
      "}"
    ]
  }

  /** The lines of lint-examples/rust_enum.rs. */
  function FixtureLines(): seq<string>
  {
    FixtureHead() + FixtureTail()
  }

  /** The top-level items of lint-examples/rust_enum.rs, as parsed. */
  function FixtureItems(): seq<SourceItem>
  {
    [ SourceItem(EnumKind, "Cake", 2, ByteRange(47, 112)),
      SourceItem(FnKind, "add", 10, ByteRange(162, 205)),
      SourceItem(ModKind, "cakes", 15, ByteRange(265, 662)) ]
  }

  lemma FixtureHeadClean()
    ensures |FixtureHead()| == 14
    ensures forall i :: 0 <= i < 14 ==> CleanLine(FixtureHead()[i])
    ensures FixtureHead()[0] == CakeMarker && FixtureHead()[8] == AddMarker && FixtureHead()[13] == CakesMarker
  {
    var head := FixtureHead();
    assert CleanLine(head[0]);
    assert CleanLine(head[1]);
    assert CleanLine(head[2]);
    assert CleanLine(head[3]);
    assert CleanLine(head[4]);
    assert CleanLine(head[5]);
    assert CleanLine(head[6]);
    assert CleanLine(head[7]);
    assert CleanLine(head[8]);
    assert CleanLine(head[9]);
    assert CleanLine(head[10]);
    assert CleanLine(head[11]);
    assert CleanLine(head[12]);
    assert CleanLine(head[13]);
  }

  lemma FixtureRulesPlain()
    ensures PlainDescription(CakeRule) && PlainDescription(AddRule) && PlainDescription(CakesRule)
  {
  }

  /** A marker line among clean first lines gives its rule, whatever follows. */
  lemma HeadMarkerRule(head: seq<string>, tail: seq<string>, k: nat, d: string)
    requires forall i :: 0 <= i < |head| ==> CleanLine(head[i])
    requires k < |head| && head[k] == "// #AIRULE: " + d
    requires PlainDescription(d)
    ensures var m := ExtractRuleMap(Terminated(head + tail));
      k + 2 in m && RuleText(m[k + 2]) == d
  {
    SplitTerminatedAppend(head, tail);
    RuleForMarkerLine(Terminated(head + tail), k, d);
  }

  /** The rule map of the fixture holds the three descriptions, keyed by
      the line after each marker, whatever follows line 14. */
  lemma FixtureRuleMap(tail: seq<string>)
    ensures var m := ExtractRuleMap(Terminated(FixtureHead() + tail));
      2 in m && RuleText(m[2]) == CakeRule &&
      10 in m && RuleText(m[10]) == AddRule &&
      15 in m && RuleText(m[15]) == CakesRule
  {
    var m := ExtractRuleMap(Terminated(FixtureHead() + tail));
    FixtureHeadClean();
    FixtureRulesPlain();
    assert 2 in m && RuleText(m[2]) == CakeRule by {
      HeadMarkerRule(FixtureHead(), tail, 0, CakeRule);
    }
    assert 10 in m && RuleText(m[10]) == AddRule by {
      HeadMarkerRule(FixtureHead(), tail, 8, AddRule);
    }
    assert 15 in m && RuleText(m[15]) == CakesRule by {
      HeadMarkerRule(FixtureHead(), tail, 13, CakesRule);
    }
  }

  /** The fixture's items under any rule map holding its three rules. */
  lemma CorrelateFixtureItems(content: string, m: map<nat, Rule>)
    requires 2 in m && RuleText(m[2]) == CakeRule
    requires 10 in m && RuleText(m[10]) == AddRule
    requires 15 in m
    ensures Correlate(content, m, FixtureItems()) == [
        RuleWithCode(CakeRule, content, ByteRange(47, 112), RuleMetaData("enum", "Cake")),
        RuleWithCode(AddRule, content, ByteRange(162, 205), RuleMetaData("function", "add")) ]
    ensures Skipped(m, FixtureItems()) == [Unsupported]
  {
    var items := FixtureItems();
    var cake := RuleWithCode(CakeRule, content, ByteRange(47, 112), RuleMetaData("enum", "Cake"));
    var add := RuleWithCode(AddRule, content, ByteRange(162, 205), RuleMetaData("function", "add"));
    assert items[..1][..0] == [];
    assert Correlate(content, m, items[..1]) == [cake];
    assert Skipped(m, items[..1]) == [];
    assert items[..2][..1] == items[..1];
    assert Correlate(content, m, items[..2]) == [cake, add];
    assert Skipped(m, items[..2]) == [];
    assert items[..3][..2] == items[..2];
    assert items[..3] == items;
  }

  /** On lint-examples/rust_enum.rs the markers on lines 1, 9 and 14 give
      rules for lines 2, 10 and 15: enum `Cake` and function `add` get
      records, `mod cakes` is skipped with a diagnostic, and the result is
      not empty. */
  lemma FixtureCorrelation()
    ensures var content := Terminated(FixtureLines());
      var m := ExtractRuleMap(content);
      var records := Correlate(content, m, FixtureItems());
      records == [
        RuleWithCode(CakeRule, content, ByteRange(47, 112), RuleMetaData("enum", "Cake")),
        RuleWithCode(AddRule, content, ByteRange(162, 205), RuleMetaData("function", "add")) ] &&
      Skipped(m, FixtureItems()) == [Unsupported] &&
      records != []
  {
    FixtureRuleMap(FixtureTail());
    var content := Terminated(FixtureLines());
    CorrelateFixtureItems(content, ExtractRuleMap(content));
  }
}
