/** What the style resolver of src/style.ts guarantees, proved of the functions
    in `Cascade`. */
module CascadeProperties {
  import opened Scanner
  import opened Dom
  import opened CssSpec
  import opened Cascade

  /** The fold keeps exactly the inheritable names among `keys`, each with the
      parent's value. */
  lemma {:induction false} InheritFoldEntries(keys: seq<string>, values: Values)
    requires forall i | 0 <= i < |keys| :: keys[i] in values
    ensures forall k :: k in InheritFold(keys, values) <==> k in keys && (k == "color" || k == "font-size")
    ensures forall k | k in InheritFold(keys, values) :: InheritFold(keys, values)[k] == values[k]
  {
    if |keys| > 0 {
      var init := keys[..|keys| - 1];
      InheritFoldEntries(init, values);
      assert keys == init + [keys[|keys| - 1]];
    }
  }

  /** In whatever order `Object.keys` lists the parent's names, the fold gives
      `InheritedBase`. */
  lemma InheritFoldMatches(keys: seq<string>, values: Values)
    requires forall k :: k in values <==> k in keys
    ensures InheritFold(keys, values) == InheritedBase(Some(values))
  {
    assert forall i | 0 <= i < |keys| :: keys[i] in values by {
      forall i | 0 <= i < |keys| ensures keys[i] in values {
        assert keys[i] in keys;
      }
    }
    InheritFoldEntries(keys, values);
  }

  /** Inheriting from what was inherited changes nothing more. */
  lemma InheritedBaseIdempotent(values: Values)
    ensures InheritedBase(Some(InheritedBase(Some(values)))) == InheritedBase(Some(values))
  {
    var once := InheritedBase(Some(values));
    assert InheritedBase(Some(once)).Keys == once.Keys;
  }

  /** A name has a value exactly when some declaration has that name. */
  lemma {:induction false} DeclMapKeys(decls: seq<Declaration>, k: string)
    ensures k in DeclMap(decls) <==> exists i | 0 <= i < |decls| :: decls[i].name == k
  {
    if |decls| > 0 {
      var init := decls[..|decls| - 1];
      DeclMapKeys(init, k);
      if k in DeclMap(init) {
        var i :| 0 <= i < |init| && init[i].name == k;
        assert decls[i].name == k;
      }
      if exists i | 0 <= i < |decls| :: decls[i].name == k {
        var i :| 0 <= i < |decls| && decls[i].name == k;
        if i < |init| {
          assert init[i].name == k;
        }
      }
    }
  }

  /** Within a rule, the last declaration of a name gives its value. */
  lemma {:induction false} DeclMapLastWins(decls: seq<Declaration>, i: nat)
    requires i < |decls|
    requires forall j | i < j < |decls| :: decls[j].name != decls[i].name
    ensures decls[i].name in DeclMap(decls) && DeclMap(decls)[decls[i].name] == decls[i].value
  {
    if i < |decls| - 1 {
      var init := decls[..|decls| - 1];
      assert init[i] == decls[i];
      DeclMapLastWins(init, i);
    }
  }

  /** Class tokens are non-empty and hold no space; blank text has none. */
  lemma TokensShape(s: string)
    ensures forall k | 0 <= k < |Tokens(s)| :: Tokens(s)[k] != "" && ' ' !in Tokens(s)[k]
    ensures s == "" ==> Tokens(s) == []
  {
    SplitPieces(s, ' ');
    NonEmptyShape(Split(s, ' '), ' ');
    if s == "" {
      assert Split(s, ' ') == [""];
      assert [""][1..] == [];
    }
  }

  lemma {:induction false} NonEmptyShape(parts: seq<string>, c: char)
    requires forall k | 0 <= k < |parts| :: c !in parts[k]
    ensures forall k | 0 <= k < |NonEmpty(parts)| :: NonEmpty(parts)[k] != "" && c !in NonEmpty(parts)[k]
    ensures forall k | 0 <= k < |NonEmpty(parts)| :: NonEmpty(parts)[k] in parts
  {
    if |parts| > 0 {
      NonEmptyShape(parts[1..], c);
      var rest := NonEmpty(parts[1..]);
      assert forall k | 0 <= k < |rest| :: rest[k] in parts;
    }
  }

  /** `isMatch` holds exactly when one of the selectors matches, so never for
      an empty list. */
  lemma {:induction false} IsMatchSome(tagName: string, attributes: map<string, string>, selectors: seq<Selector>)
    ensures IsMatch(tagName, attributes, selectors)
            <==> exists k | 0 <= k < |selectors| :: SelectorMatches(tagName, attributes, selectors[k])
  {
    if |selectors| > 0 {
      IsMatchSome(tagName, attributes, selectors[1..]);
      if exists k | 0 <= k < |selectors| :: SelectorMatches(tagName, attributes, selectors[k]) {
        var k :| 0 <= k < |selectors| && SelectorMatches(tagName, attributes, selectors[k]);
        if k > 0 {
          assert selectors[1..][k - 1] == selectors[k];
        }
      }
    }
  }

  /** A selector with every field empty matches no element. */
  lemma EmptySelectorNeverMatches(tagName: string, attributes: map<string, string>)
    ensures !SelectorMatches(tagName, attributes, NoSelector)
  {
    TokensShape("");
  }

  /** After the rules are applied, a name has a value exactly when it had one
      before or some matching rule declares it. */
  lemma {:induction false} ApplyRulesKeys(tagName: string, attributes: map<string, string>, rules: seq<Rule>, acc: Values, k: string)
    ensures k in ApplyRules(tagName, attributes, rules, acc)
            <==> k in acc || exists i | 0 <= i < |rules| :: Applies(tagName, attributes, rules[i]) && k in DeclMap(rules[i].declarations)
    decreases |rules|
  {
    if |rules| > 0 {
      var next := if Applies(tagName, attributes, rules[0]) then acc + DeclMap(rules[0].declarations) else acc;
      ApplyRulesKeys(tagName, attributes, rules[1..], next, k);
      if exists i | 0 <= i < |rules| :: Applies(tagName, attributes, rules[i]) && k in DeclMap(rules[i].declarations) {
        var i :| 0 <= i < |rules| && Applies(tagName, attributes, rules[i]) && k in DeclMap(rules[i].declarations);
        if i > 0 {
          assert rules[1..][i - 1] == rules[i];
        }
      }
      if exists i | 0 <= i < |rules[1..]| :: Applies(tagName, attributes, rules[1..][i]) && k in DeclMap(rules[1..][i].declarations) {
        var i :| 0 <= i < |rules[1..]| && Applies(tagName, attributes, rules[1..][i]) && k in DeclMap(rules[1..][i].declarations);
        assert rules[i + 1] == rules[1..][i];
      }
    }
  }

  /** The last matching rule that declares a name gives its value: later rules
      win, and a rule that does not match changes nothing. */
  lemma {:induction false} ApplyRulesLastWins(tagName: string, attributes: map<string, string>, rules: seq<Rule>, acc: Values, i: nat, k: string)
    requires i < |rules| && Applies(tagName, attributes, rules[i]) && k in DeclMap(rules[i].declarations)
    requires forall j | i < j < |rules| :: !(Applies(tagName, attributes, rules[j]) && k in DeclMap(rules[j].declarations))
    ensures k in ApplyRules(tagName, attributes, rules, acc)
    ensures ApplyRules(tagName, attributes, rules, acc)[k] == DeclMap(rules[i].declarations)[k]
    decreases |rules|
  {
    var next := if Applies(tagName, attributes, rules[0]) then acc + DeclMap(rules[0].declarations) else acc;
    if i == 0 {
      ApplyRulesUntouched(tagName, attributes, rules[1..], next, k);
    } else {
      assert rules[1..][i - 1] == rules[i];
      ApplyRulesLastWins(tagName, attributes, rules[1..], next, i - 1, k);
    }
  }

  /** A name no matching rule declares keeps the value it had. */
  lemma {:induction false} ApplyRulesUntouched(tagName: string, attributes: map<string, string>, rules: seq<Rule>, acc: Values, k: string)
    requires k in acc
    requires forall j | 0 <= j < |rules| :: !(Applies(tagName, attributes, rules[j]) && k in DeclMap(rules[j].declarations))
    ensures k in ApplyRules(tagName, attributes, rules, acc)
    ensures ApplyRules(tagName, attributes, rules, acc)[k] == acc[k]
    decreases |rules|
  {
    if |rules| > 0 {
      var next := if Applies(tagName, attributes, rules[0]) then acc + DeclMap(rules[0].declarations) else acc;
      assert forall j | 0 <= j < |rules[1..]| :: rules[1..][j] == rules[j + 1];
      ApplyRulesUntouched(tagName, attributes, rules[1..], next, k);
    }
  }

  /** Blank inline text gives no entries. */
  lemma InlineBlank(str: string)
    requires forall k | 0 <= k < |str| :: IsTrimmable(str[k])
    ensures InlineStyle(str) == map[]
  {
    TrimEmpty(str);
  }

  /** An item is kept exactly when it holds one `:`. */
  predicate IsPair(item: string) {
    Count(item, ':') == 1
  }

  lemma PairSplit(item: string)
    ensures IsPair(item) <==> |Split(item, ':')| == 2
  {
    SplitCount(item, ':');
  }

  /** A name has an inline value exactly when some item with one `:` has it,
      trimmed, before its `:`. */
  lemma {:induction false} InlineItemsKeys(items: seq<string>, k: string)
    ensures k in InlineItems(items)
            <==> exists i | 0 <= i < |items| :: IsPair(items[i]) && Trim(Split(items[i], ':')[0]) == k
  {
    if |items| > 0 {
      var init := items[..|items| - 1];
      var last := items[|items| - 1];
      InlineItemsKeys(init, k);
      PairSplit(last);
      if k in InlineItems(init) {
        var i :| 0 <= i < |init| && IsPair(init[i]) && Trim(Split(init[i], ':')[0]) == k;
        assert items[i] == init[i];
      }
      if exists i | 0 <= i < |items| :: IsPair(items[i]) && Trim(Split(items[i], ':')[0]) == k {
        var i :| 0 <= i < |items| && IsPair(items[i]) && Trim(Split(items[i], ':')[0]) == k;
        if i < |init| {
          assert init[i] == items[i];
        }
      }
    }
  }

  /** The last item with one `:` whose trimmed name is `k` gives `k` its
      value: its second piece, trimmed. */
  lemma {:induction false} InlineItemsLastWins(items: seq<string>, i: nat, k: string)
    requires i < |items| && |Split(items[i], ':')| == 2 && Trim(Split(items[i], ':')[0]) == k
    requires forall j | i < j < |items| :: !(|Split(items[j], ':')| == 2 && Trim(Split(items[j], ':')[0]) == k)
    ensures k in InlineItems(items) && InlineItems(items)[k] == Trim(Split(items[i], ':')[1])
  {
    if i < |items| - 1 {
      var init := items[..|items| - 1];
      assert init[i] == items[i];
      assert forall j | i < j < |init| :: init[j] == items[j];
      InlineItemsLastWins(init, i, k);
    }
  }

  /** Every inline name and value is trimmed and holds neither `:` nor `;`. */
  lemma InlineStyleShape(str: string)
    ensures forall k | k in InlineStyle(str) ::
              Trimmed(k) && Trimmed(InlineStyle(str)[k])
              && ':' !in k && ':' !in InlineStyle(str)[k] && ';' !in k && ';' !in InlineStyle(str)[k]
  {
    var t := Trim(str);
    if |t| > 0 {
      SplitPieces(t, ';');
      InlineItemsShape(Split(t, ';'));
    }
  }

  lemma {:induction false} InlineItemsShape(items: seq<string>)
    requires forall i | 0 <= i < |items| :: ';' !in items[i]
    ensures forall k | k in InlineItems(items) ::
              Trimmed(k) && Trimmed(InlineItems(items)[k])
              && ':' !in k && ':' !in InlineItems(items)[k] && ';' !in k && ';' !in InlineItems(items)[k]
  {
    if |items| > 0 {
      var init := items[..|items| - 1];
      var last := items[|items| - 1];
      assert forall i | 0 <= i < |init| :: init[i] == items[i];
      InlineItemsShape(init);
      var data := Split(last, ':');
      if |data| == 2 {
        SplitPieces(last, ':');
        PieceKeepsAbsent(last, ':', ';');
        TrimShape(data[0]);
        TrimShape(data[1]);
        TrimKeepsAbsent(data[0], ':');
        TrimKeepsAbsent(data[1], ':');
        TrimKeepsAbsent(data[0], ';');
        TrimKeepsAbsent(data[1], ';');
      }
    }
  }

  /** The pieces of a split hold no character the whole did not. */
  lemma {:induction false} PieceKeepsAbsent(s: string, sep: char, c: char)
    requires c !in s
    ensures forall k | 0 <= k < |Split(s, sep)| :: c !in Split(s, sep)[k]
    decreases |s|
  {
    if sep in s {
      var k := IndexOf(s, sep);
      PieceKeepsAbsent(s[k + 1..], sep, c);
      assert c !in s[..k];
    }
  }

  /** `getStyleNode` for a text node: the inherited values, and no children. */
  lemma TextStyle(value: string, rules: seq<Rule>, parent: Option<Values>)
    ensures var r := StyleNodeOf(Text(value), rules, parent);
            r.node == Text(value) && r.values == InheritedBase(parent) && r.children == []
  {
  }

  /** The style tree mirrors the node tree: each style node holds its node, an
      element's children are styled in the same number and order, each with
      the element's values (inline styles included) as its parent's. */
  lemma StyleMirrors(n: Node, rules: seq<Rule>, parent: Option<Values>)
    ensures var r := StyleNodeOf(n, rules, parent);
            r.node == n
            && (n.Text? ==> r.children == [])
            && (n.Element? ==> |r.children| == |n.children|
                               && forall i | 0 <= i < |n.children| :: r.children[i] == StyleNodeOf(n.children[i], rules, Some(r.values)))
  {
    if n.Element? {
      var r := StyleNodeOf(n, rules, parent);
      StyleForestMirrors(n.children, rules, Some(r.values));
    }
  }

  /** Styling a list styles each node with the same parent, in order. */
  lemma {:induction false} StyleForestMirrors(nodes: seq<Node>, rules: seq<Rule>, parent: Option<Values>)
    ensures |StyleForest(nodes, rules, parent)| == |nodes|
    ensures forall i | 0 <= i < |nodes| :: StyleForest(nodes, rules, parent)[i] == StyleNodeOf(nodes[i], rules, parent)
  {
    if |nodes| > 0 {
      StyleForestMirrors(nodes[1..], rules, parent);
    }
  }

  /** An element's inline styles override what the rules gave; without them
      the element keeps the rules' values. */
  lemma InlineOverrides(n: Node, rules: seq<Rule>, parent: Option<Values>)
    requires n.Element?
    ensures var r := StyleNodeOf(n, rules, parent);
            var ruled := ApplyRules(n.tagName, n.attributes, rules, InheritedBase(parent));
            if HasStyles(n.attributes) then
              var inline := InlineStyle(n.attributes["styles"]);
              (forall k | k in inline :: k in r.values && r.values[k] == inline[k])
              && (forall k | k in r.values && k !in inline :: k in ruled && r.values[k] == ruled[k])
              && r.values.Keys == ruled.Keys + inline.Keys
            else r.values == ruled
  {
  }

  /** A child of an element takes the element's final `color` unless, being an
      element itself, a matching rule or its own inline styles set it: the
      value passes through both layers. This holds for the root too, which has
      no parent, and whatever gave the element its `color`. */
  lemma ColorInherited(n: Node, rules: seq<Rule>, parent: Option<Values>, c: Node)
    requires n.Element? && c in n.children
    requires c.Element? ==> forall j | 0 <= j < |rules| :: !(Applies(c.tagName, c.attributes, rules[j]) && "color" in DeclMap(rules[j].declarations))
    requires c.Element? && HasStyles(c.attributes) ==> "color" !in InlineStyle(c.attributes["styles"])
    ensures var r := StyleNodeOf(n, rules, parent);
            "color" in r.values ==> "color" in StyleNodeOf(c, rules, Some(r.values)).values
                                    && StyleNodeOf(c, rules, Some(r.values)).values["color"] == r.values["color"]
  {
    var r := StyleNodeOf(n, rules, parent);
    if "color" in r.values {
      var base := InheritedBase(Some(r.values));
      assert "color" in base && base["color"] == r.values["color"];
      if c.Element? {
        ApplyRulesUntouched(c.tagName, c.attributes, rules, base, "color");
      }
    }
  }

  /** `getStyleTree` as written returns for no single node and no non-empty
      list, however many nested calls it is allowed; only the empty list comes
      back. */
  lemma {:induction false} TreeNeverReturns(input: TreeInput, fuel: nat)
    ensures TreeReturns(input, fuel) <==> fuel > 0 && input.Many? && input.nodes == []
    decreases fuel, 0
  {
    if fuel > 0 {
      var elements := if input.One? then [input.node] else input.nodes;
      MapNeverReturns(elements, fuel - 1);
    }
  }

  lemma {:induction false} MapNeverReturns(elements: seq<Node>, fuel: nat)
    ensures MapReturns(elements, fuel) <==> elements == []
    decreases fuel, 1
  {
    if elements != [] {
      TreeNeverReturns(One(elements[0]), fuel);
    }
  }

  /** A blue class rule reaches the text inside the element it names. */
  lemma InheritExample()
    ensures var div := Element("div", map["class" := "note"], [Text("hi")]);
            var rules := [Rule([Selector("", "", "note")], [Declaration("color", "blue"), Declaration("margin", "0")])];
            StyleNodeOf(div, rules, None).children[0].values == map["color" := "blue"]
  {
    var div := Element("div", map["class" := "note"], [Text("hi")]);
    var rules := [Rule([Selector("", "", "note")], [Declaration("color", "blue"), Declaration("margin", "0")])];
    var values := map["color" := "blue", "margin" := "0"];
    ExampleValues(div, rules);
    assert !HasStyles(div.attributes);
    StyleMirrors(div, rules, None);
    assert StyleNodeOf(div, rules, None).values == values;
    assert StyleNodeOf(div, rules, None).children[0] == StyleNodeOf(Text("hi"), rules, Some(values));
    assert InheritedBase(Some(values)) == map["color" := "blue"];
  }

  /** The rule of that example matches the element and gives it both values. */
  lemma ExampleValues(div: Node, rules: seq<Rule>)
    requires div == Element("div", map["class" := "note"], [Text("hi")])
    requires rules == [Rule([Selector("", "", "note")], [Declaration("color", "blue"), Declaration("margin", "0")])]
    ensures StyleValues(div, rules, None) == map["color" := "blue", "margin" := "0"]
  {
    var values := map["color" := "blue", "margin" := "0"];
    assert Tokens("note") == ["note"] by {
      assert Split("note", ' ') == ["note"];
    }
    assert Overlap(Tokens("note"), Tokens("note")) by {
      assert Tokens("note")[0] in Tokens("note");
    }
    assert SelectorMatches("div", div.attributes, rules[0].selectors[0]);
    assert Applies("div", div.attributes, rules[0]);
    assert DeclMap(rules[0].declarations) == values by {
      assert rules[0].declarations[..1] == [Declaration("color", "blue")];
    }
    assert map[] + values == values;
    assert |rules[1..]| == 0;
    assert ApplyRules("div", div.attributes, rules, map[]) == ApplyRules("div", div.attributes, rules[1..], values);
  }
}
