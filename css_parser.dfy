/** The class of src/CssParser.ts: a cursor over the trimmed input advanced step
    by step by its methods. Each method is proved to compute the function of
    `CssSpec` that gives its meaning. */
module CssParsing {
  import opened Scanner
  import opened CssSpec

  /** How one iteration of the selector loop ends. */
  datatype SelectorStep = Selected(selector: Selector) | Skipped | Opened

  class CssParser {
    /** The inherited cursor (`rawText`, `index`). */
    const cursor: Cursor

    constructor ()
      ensures fresh(cursor) && cursor.text == "" && cursor.index == 0
    {
      cursor := new Cursor();
    }

    /** `parse`: scan the trimmed input from index 0. */
    method Parse(rawText: string) returns (rules: seq<Rule>)
      modifies cursor
      ensures cursor.text == Trim(rawText)
      ensures rules == CssSpec.Parse(rawText)
      ensures cursor.index == RulesRead(Trim(rawText), 0, []).end
    {
      cursor.text := Trim(rawText);
      cursor.index := 0;
      rules := ParseRules();
    }

    /** `parseRules`: rules until the end of input. */
    method ParseRules() returns (rules: seq<Rule>)
      modifies cursor
      ensures cursor.text == old(cursor.text)
      ensures RulesRead(cursor.text, old(cursor.index), []) == Read(rules, cursor.index)
    {
      ghost var s := cursor.text;
      rules := [];
      while cursor.index < |cursor.text|
        invariant cursor.text == s
        invariant RulesRead(s, cursor.index, rules) == RulesRead(s, old(cursor.index), [])
        decreases Rest(s, cursor.index)
      {
        var rule := ParseRule();
        rules := rules + [rule];
      }
    }

    /** `parseRule`: the selectors, then the declarations. */
    method ParseRule() returns (rule: Rule)
      modifies cursor
      ensures cursor.text == old(cursor.text)
      ensures RuleRead(cursor.text, old(cursor.index)) == Read(rule, cursor.index)
    {
      var selectors := ParseSelectors();
      var declarations := ParseDeclarations();
      rule := Rule(selectors, declarations);
    }

    /** `parseSelectors`: the loop up to and including the `{`. */
    method ParseSelectors() returns (selectors: seq<Selector>)
      modifies cursor
      ensures cursor.text == old(cursor.text)
      ensures SelectorsRead(cursor.text, old(cursor.index), []) == Read(selectors, cursor.index)
    {
      ghost var s := cursor.text;
      selectors := [];
      while cursor.index < |cursor.text|
        invariant cursor.text == s
        invariant SelectorsRead(s, cursor.index, selectors) == SelectorsRead(s, old(cursor.index), [])
        decreases Rest(s, cursor.index)
      {
        var o := ParseSelectorsStep(selectors);
        if o.Opened? {
          break;
        }
        if o.Selected? {
          selectors := selectors + [o.selector];
        }
      }
    }

    /** One iteration of that loop: skip blanks, then read a selector at a
        selector character or at a comma, stop after a `{`, and step one
        character further otherwise. `selectors` is what the loop has read so
        far. */
    method ParseSelectorsStep(ghost selectors: seq<Selector>) returns (o: SelectorStep)
      requires cursor.index < |cursor.text|
      modifies cursor
      ensures cursor.text == old(cursor.text)
      ensures old(cursor.index) < cursor.index
      ensures o.Opened? ==> SelectorsRead(cursor.text, old(cursor.index), selectors) == Read(selectors, cursor.index)
      ensures o.Selected? ==> SelectorsRead(cursor.text, old(cursor.index), selectors)
                              == SelectorsRead(cursor.text, cursor.index, selectors + [o.selector])
      ensures o.Skipped? ==> SelectorsRead(cursor.text, old(cursor.index), selectors)
                             == SelectorsRead(cursor.text, cursor.index, selectors)
    {
      ghost var s := cursor.text;
      cursor.RemoveSpaces();
      var i := cursor.index;
      assert SelectorsRead(s, old(cursor.index), selectors) == SelectorsAt(s, i, selectors);
      if StartsSelector(cursor.text, i) {
        var selector := ParseSelector();
        o := Selected(selector);
      } else if cursor.text[i] == ',' {
        cursor.RemoveSpaces();
        var selector := ParseSelector();
        o := Selected(selector);
      } else if cursor.text[i] == '{' {
        o := Opened;
      } else {
        o := Skipped;
      }
      cursor.index := cursor.index + 1;
    }

    /** `parseSelector`. */
    method ParseSelector() returns (selector: Selector)
      modifies cursor
      ensures cursor.text == old(cursor.text)
      ensures SelectorRead(cursor.text, old(cursor.index)) == Read(selector, cursor.index)
    {
      selector := NoSelector;
      var i := cursor.index;
      if i < |cursor.text| && cursor.text[i] == '*' {
        selector := selector.(tagName := "*");
        cursor.index := cursor.index + 1;
      } else if i < |cursor.text| && cursor.text[i] == '.' {
        cursor.index := cursor.index + 1;
        var name := ParseIdentifier();
        selector := selector.(className := name);
      } else if i < |cursor.text| && cursor.text[i] == '#' {
        cursor.index := cursor.index + 1;
        var name := ParseIdentifier();
        selector := selector.(id := name);
      } else {
        var name := ParseIdentifier();
        selector := selector.(tagName := name);
      }
    }

    /** `parseDeclarations`: declarations until the end of input. */
    method ParseDeclarations() returns (declarations: seq<Declaration>)
      modifies cursor
      ensures cursor.text == old(cursor.text)
      ensures DeclarationsRead(cursor.text, old(cursor.index), []) == Read(declarations, cursor.index)
    {
      ghost var s := cursor.text;
      declarations := [];
      while cursor.index < |cursor.text|
        invariant cursor.text == s
        invariant DeclarationsRead(s, cursor.index, declarations) == DeclarationsRead(s, old(cursor.index), [])
        decreases Rest(s, cursor.index)
      {
        var declaration := ParseDeclaration();
        declarations := declarations + [declaration];
      }
    }

    /** `parseDeclaration`. */
    method ParseDeclaration() returns (declaration: Declaration)
      modifies cursor
      ensures cursor.text == old(cursor.text)
      ensures DeclarationRead(cursor.text, old(cursor.index)) == Read(declaration, cursor.index)
    {
      ghost var s := cursor.text;
      cursor.RemoveSpaces();
      ghost var p := cursor.index;
      var name := ParseIdentifier();
      cursor.RemoveSpaces();
      var _ := cursor.ReadUntil({':'});
      ghost var colon := cursor.index;
      assert DeclarationRead(s, old(cursor.index)) == DeclarationAt(s, p) == DeclarationValue(s, name, colon);
      cursor.index := cursor.index + 1;
      cursor.RemoveSpaces();
      var value := ParseValue();
      cursor.RemoveSpaces();
      declaration := Declaration(name, value);
    }

    /** `parseIdentifier`: the run of identifier characters at the cursor. */
    method ParseIdentifier() returns (identifier: string)
      modifies cursor
      ensures cursor.text == old(cursor.text)
      ensures IdentRead(cursor.text, old(cursor.index)) == Read(identifier, cursor.index)
    {
      ghost var s := cursor.text;
      identifier := "";
      while cursor.index < |cursor.text| && IsIdentChar(cursor.text[cursor.index])
        invariant cursor.text == s
        invariant old(cursor.index) <= cursor.index
        invariant IdentEnd(s, cursor.index) == IdentEnd(s, old(cursor.index))
        invariant identifier == Consumed(s, old(cursor.index), cursor.index)
        decreases Rest(s, cursor.index)
      {
        identifier := identifier + [cursor.text[cursor.index]];
        cursor.index := cursor.index + 1;
      }
    }

    /** `parseValue`: the text up to the next `;`, trimmed, and the `;` is skipped. */
    method ParseValue() returns (value: string)
      modifies cursor
      ensures cursor.text == old(cursor.text)
      ensures ValueRead(cursor.text, old(cursor.index)) == Read(value, cursor.index)
    {
      value := cursor.ReadUntil({';'});
      cursor.index := cursor.index + 1;
      value := Trim(value);
    }
  }
}
