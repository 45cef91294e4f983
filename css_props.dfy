/** What the style-sheet parser of src/CssParser.ts guarantees about the rules it
    builds, proved of the functions in `CssSpec` (and so of the class
    `CssParsing.CssParser`, which computes them). */
module CssProperties {
  import opened Scanner
  import opened CssSpec

  /** Every character is an identifier character (the empty string included). */
  predicate IsIdent(t: string) {
    forall k | 0 <= k < |t| :: IsIdentChar(t[k])
  }

  /** `parseIdentifier` returns the longest run of identifier characters at the
      cursor: all of it is identifier characters, and the character after it,
      if any, is not one. */
  lemma IdentReadMaximal(s: string, i: nat)
    ensures var r := IdentRead(s, i);
            IsIdent(r.value) && (r.end < |s| ==> !IsIdentChar(s[r.end]))
            && (i <= |s| ==> r.value == s[i..r.end])
  {
    IdentEndSkips(s, i);
    var r := IdentRead(s, i);
    if i <= |s| {
      assert forall k | 0 <= k < |r.value| :: r.value[k] == s[i + k];
    }
  }

  /** `parseSelector`: the tag name is `*` exactly when the cursor is on a `*`;
      a class name is read only after a `.` and an id only after a `#`; every
      name read is an identifier. */
  lemma SelectorReadKinds(s: string, i: nat)
    ensures var sel := SelectorRead(s, i).value;
            (sel.tagName == "*" <==> i < |s| && s[i] == '*')
            && (sel.className != "" ==> i < |s| && s[i] == '.')
            && (sel.id != "" ==> i < |s| && s[i] == '#')
            && (sel.tagName != "*" ==> IsIdent(sel.tagName))
            && IsIdent(sel.id) && IsIdent(sel.className)
            && (i < |s| && s[i] == '.' ==> sel.className == IdentRead(s, i + 1).value)
            && (i < |s| && s[i] == '#' ==> sel.id == IdentRead(s, i + 1).value)
            && (i < |s| && s[i] != '*' && s[i] != '.' && s[i] != '#' ==> sel.tagName == IdentRead(s, i).value)
            && (i >= |s| ==> sel == NoSelector)
  {
    IdentReadMaximal(s, i);
    IdentReadMaximal(s, i + 1);
  }

  /** Properties of a list of selectors as `parseSelectors` builds it. */
  predicate AllSingleAxis(sels: seq<Selector>) {
    forall k | 0 <= k < |sels| :: SingleAxis(sels[k])
  }

  lemma AllSingleAxisSnoc(a: seq<Selector>, sel: Selector)
    requires AllSingleAxis(a) && SingleAxis(sel)
    ensures AllSingleAxis(a + [sel])
  {
    assert forall k | 0 <= k < |a| :: (a + [sel])[k] == a[k];
  }

  /** The selector loop only appends to what it has read, in input order: what
      it appends does not depend on what it has read. */
  lemma {:induction false} SelectorsReadPrefix(s: string, i: nat, a: seq<Selector>, b: seq<Selector>)
    ensures SelectorsRead(s, i, a + b).value == a + SelectorsRead(s, i, b).value
    decreases Ahead(s, i), 1
  {
    if i < |s| {
      SelectorsAtPrefix(s, SkipBlanks(s, i), a, b);
    }
  }

  lemma {:induction false} SelectorsAtPrefix(s: string, p: nat, a: seq<Selector>, b: seq<Selector>)
    requires p <= |s|
    ensures SelectorsAt(s, p, a + b).value == a + SelectorsAt(s, p, b).value
    decreases Ahead(s, p), 0
  {
    if StartsSelector(s, p) || s[p] == ',' {
      var sel := if StartsSelector(s, p) then SelectorRead(s, p) else SelectorRead(s, SkipBlanks(s, p));
      assert a + b + [sel.value] == a + (b + [sel.value]);
      SelectorsReadPrefix(s, sel.end + 1, a, b + [sel.value]);
    } else if s[p] != '{' {
      SelectorsReadPrefix(s, p + 1, a, b);
    }
  }

  /** Each selector the loop appends has at most one field filled in, and the
      loop ends just after a `{` or past the end of input. */
  lemma {:induction false} SelectorsReadShape(s: string, i: nat, acc: seq<Selector>)
    requires AllSingleAxis(acc)
    ensures var r := SelectorsRead(s, i, acc);
            AllSingleAxis(r.value) && (r.end >= |s| || (0 < r.end && s[r.end - 1] == '{'))
    decreases Ahead(s, i), 1
  {
    if i < |s| {
      SelectorsAtShape(s, SkipBlanks(s, i), acc);
    }
  }

  lemma {:induction false} SelectorsAtShape(s: string, p: nat, acc: seq<Selector>)
    requires p <= |s| && AllSingleAxis(acc)
    ensures var r := SelectorsAt(s, p, acc);
            AllSingleAxis(r.value) && (r.end >= |s| || (0 < r.end && s[r.end - 1] == '{'))
    decreases Ahead(s, p), 0
  {
    if StartsSelector(s, p) || s[p] == ',' {
      var sel := if StartsSelector(s, p) then SelectorRead(s, p) else SelectorRead(s, SkipBlanks(s, p));
      AllSingleAxisSnoc(acc, sel.value);
      SelectorsReadShape(s, sel.end + 1, acc + [sel.value]);
    } else if s[p] != '{' {
      SelectorsReadShape(s, p + 1, acc);
    }
  }

  /** `parseDeclaration`: the name is an identifier and the value holds no `;`
      and is trimmed. */
  lemma DeclarationReadShape(s: string, i: nat)
    ensures var d := DeclarationRead(s, i).value;
            IsIdent(d.name) && ';' !in d.value && Trimmed(d.value)
  {
    var p := SkipBlanks(s, i);
    var name := IdentRead(s, p);
    IdentReadMaximal(s, p);
    var colon := ScanUntil(s, SkipBlanks(s, name.end), {':'});
    ValueReadShape(s, SkipBlanks(s, colon + 1));
  }

  /** `parseDeclaration` reads which name and which value: the name is the
      longest identifier run after the blanks at `i`; the value is the text
      after the next `:` and its blanks, up to the next `;`, trimmed, and
      empty when no `:` follows the name. */
  lemma DeclarationReadContent(s: string, i: nat, p: nat, colon: nat, v: nat)
    requires i <= |s| && p == SkipBlanks(s, i)
    requires colon == ScanUntil(s, SkipBlanks(s, IdentEnd(s, p)), {':'})
    requires v == SkipBlanks(s, colon + 1)
    ensures colon < |s| ==> s[colon] == ':'
    ensures v <= |s| ==> DeclarationRead(s, i).value == Declaration(s[p..IdentEnd(s, p)], Trim(s[v..ScanUntil(s, v, {';'})]))
    ensures v > |s| ==> DeclarationRead(s, i).value == Declaration(s[p..IdentEnd(s, p)], "")
  {
    var name := IdentRead(s, p);
    IdentReadMaximal(s, p);
    assert DeclarationRead(s, i) == DeclarationValue(s, name.value, colon);
    var value := ValueRead(s, v);
    assert DeclarationRead(s, i).value == Declaration(name.value, value.value);
    if v <= |s| {
      ValueReadContent(s, v);
    } else {
      assert value.value == Trim("");
    }
  }

  /** A declaration as `parseDeclaration` builds it. */
  predicate Shaped(d: Declaration) {
    IsIdent(d.name) && ';' !in d.value && Trimmed(d.value)
  }

  /** Properties of a list of declarations as `parseDeclarations` builds it. */
  predicate AllShaped(decls: seq<Declaration>) {
    forall k | 0 <= k < |decls| :: Shaped(decls[k])
  }

  lemma AllShapedSnoc(a: seq<Declaration>, d: Declaration)
    requires AllShaped(a) && Shaped(d)
    ensures AllShaped(a + [d])
  {
    assert forall k | 0 <= k < |a| :: (a + [d])[k] == a[k];
  }

  /** The declaration loop only appends to what it has read, in input order:
      what it appends does not depend on what it has read. */
  lemma {:induction false} DeclarationsReadPrefix(s: string, i: nat, a: seq<Declaration>, b: seq<Declaration>)
    ensures DeclarationsRead(s, i, a + b).value == a + DeclarationsRead(s, i, b).value
    decreases Rest(s, i)
  {
    if i < |s| {
      var d := DeclarationRead(s, i);
      assert a + b + [d.value] == a + (b + [d.value]);
      DeclarationsReadPrefix(s, d.end, a, b + [d.value]);
    } else {
      assert a + b == a + b;
    }
  }

  /** Every declaration the loop appends is shaped as `parseDeclaration` promises. */
  lemma {:induction false} DeclarationsReadShaped(s: string, i: nat, acc: seq<Declaration>)
    requires AllShaped(acc)
    ensures AllShaped(DeclarationsRead(s, i, acc).value)
    decreases Rest(s, i)
  {
    if i < |s| {
      var d := DeclarationRead(s, i);
      assert DeclarationsRead(s, i, acc) == DeclarationsRead(s, d.end, acc + [d.value]);
      DeclarationReadShape(s, i);
      AllShapedSnoc(acc, d.value);
      DeclarationsReadShaped(s, d.end, acc + [d.value]);
    }
  }

  /** Since the declaration loop runs to the end of input, `parse` returns no
      rule for blank input and exactly one rule otherwise: the selectors up to
      the first `{` that the selector loop stops at, and every declaration
      after it. */
  lemma ParseOneRule(rawText: string)
    ensures var s := Trim(rawText);
            |Parse(rawText)| == (if |s| == 0 then 0 else 1)
            && (|s| > 0 ==> Parse(rawText)[0] == RuleRead(s, 0).value)
  {
    var s := Trim(rawText);
    if |s| > 0 {
      var r := RuleRead(s, 0);
      assert [] + [r.value] == [r.value];
      assert RulesRead(s, 0, []) == RulesRead(s, r.end, [r.value]);
      assert RulesRead(s, r.end, [r.value]) == Read([r.value], r.end);
    }
  }

  /** `parse` returns no rule exactly when the input is all white space. */
  lemma ParseBlank(rawText: string)
    ensures Parse(rawText) == [] <==> forall k | 0 <= k < |rawText| :: IsTrimmable(rawText[k])
  {
    ParseOneRule(rawText);
    TrimEmpty(rawText);
  }

  /** Every selector of every rule has at most one field filled in, and every
      declaration has an identifier for a name and a trimmed value without `;`. */
  lemma ParseShape(rawText: string)
    ensures forall k | 0 <= k < |Parse(rawText)| ::
              AllSingleAxis(Parse(rawText)[k].selectors) && AllShaped(Parse(rawText)[k].declarations)
  {
    ParseOneRule(rawText);
    var s := Trim(rawText);
    if |s| > 0 {
      SelectorsReadShape(s, 0, []);
      DeclarationsReadShaped(s, SelectorsRead(s, 0, []).end, []);
    }
  }

  /** A `{` written right after a selector is skipped by the extra step after
      each selector, so the rest of the text is read as more selectors. */
  lemma SkippedBraceExample()
    ensures Parse("a{b:c}") == [Rule([Selector("a", "", ""), Selector("b", "", ""), Selector("c", "", "")], [])]
  {
    var s := "a{b:c}";
    var a, b, c := Selector("a", "", ""), Selector("b", "", ""), Selector("c", "", "");
    TrimOfTrimmed(s);
    assert SelectorRead(s, 0) == Read(a, 1) by {
      assert IdentEnd(s, 0) == 1 && s[0..1] == "a";
    }
    assert SelectorRead(s, 2) == Read(b, 3) by {
      assert IdentEnd(s, 2) == 3 && s[2..3] == "b";
    }
    assert SelectorRead(s, 4) == Read(c, 5) by {
      assert IdentEnd(s, 4) == 5 && s[4..5] == "c";
    }
    assert SelectorsRead(s, 4, [a, b]) == Read([a, b, c], 6) by {
      assert SkipBlanks(s, 4) == 4 && [a, b] + [c] == [a, b, c];
      assert SelectorsAt(s, 4, [a, b]) == SelectorsRead(s, 6, [a, b, c]);
    }
    assert SelectorsRead(s, 2, [a]) == Read([a, b, c], 6) by {
      assert SkipBlanks(s, 2) == 2 && [a] + [b] == [a, b];
      assert SelectorsAt(s, 2, [a]) == SelectorsRead(s, 4, [a, b]);
    }
    assert SelectorsRead(s, 0, []) == Read([a, b, c], 6) by {
      assert SkipBlanks(s, 0) == 0 && [] + [a] == [a];
      assert SelectorsAt(s, 0, []) == SelectorsRead(s, 2, [a]);
    }
    ParseOneRule(s);
  }

  /** The selector loop stops at a `{` set apart by a blank; a `}` ends nothing,
      so after the last `;` one more, empty, declaration is read. */
  /** A `}` where a declaration starts is not an identifier character, so the
      declaration read there has an empty name. */
  lemma BraceDeclaration(s: string, i: nat)
    requires i <= |s| && SkipBlanks(s, i) < |s| && s[SkipBlanks(s, i)] == '}'
    ensures DeclarationRead(s, i).value.name == ""
  {
    var p := SkipBlanks(s, i);
    DeclarationReadContent(s, i, p, ScanUntil(s, SkipBlanks(s, IdentEnd(s, p)), {':'}),
                           SkipBlanks(s, ScanUntil(s, SkipBlanks(s, IdentEnd(s, p)), {':'}) + 1));
  }

  lemma TrailingBraceExample()
    ensures Parse("a {b:c;}") == [Rule([Selector("a", "", "")], [Declaration("b", "c"), Declaration("", "")])]
  {
    var s := "a {b:c;}";
    TrimOfTrimmed(s);
    TrailingSelectors(s);
    TrailingDeclarations(s);
    ParseOneRule(s);
  }

  lemma TrailingSelectors(s: string)
    requires s == "a {b:c;}"
    ensures SelectorsRead(s, 0, []) == Read([Selector("a", "", "")], 3)
  {
    assert SelectorRead(s, 0) == Read(Selector("a", "", ""), 1) by {
      assert IdentEnd(s, 0) == 1 && s[0..1] == "a";
    }
    assert SelectorsRead(s, 2, [Selector("a", "", "")]) == Read([Selector("a", "", "")], 3) by {
      assert SkipBlanks(s, 2) == 2;
    }
    assert SkipBlanks(s, 0) == 0 && [] + [Selector("a", "", "")] == [Selector("a", "", "")];
    assert SelectorsAt(s, 0, []) == SelectorsRead(s, 2, [Selector("a", "", "")]);
  }

  lemma TrailingDeclarations(s: string)
    requires s == "a {b:c;}"
    ensures DeclarationsRead(s, 3, []) == Read([Declaration("b", "c"), Declaration("", "")], 10)
  {
    TrailingFirst(s);
    TrailingLast(s);
    assert [] + [Declaration("b", "c")] == [Declaration("b", "c")];
    assert [Declaration("b", "c")] + [Declaration("", "")] == [Declaration("b", "c"), Declaration("", "")];
    assert DeclarationsRead(s, 10, [Declaration("b", "c"), Declaration("", "")])
           == Read([Declaration("b", "c"), Declaration("", "")], 10);
    assert DeclarationsRead(s, 7, [Declaration("b", "c")])
           == DeclarationsRead(s, 10, [Declaration("b", "c"), Declaration("", "")]);
  }

  lemma TrailingFirst(s: string)
    requires s == "a {b:c;}"
    ensures DeclarationRead(s, 3) == Read(Declaration("b", "c"), 7)
  {
    assert SkipBlanks(s, 3) == 3;
    assert IdentRead(s, 3) == Read("b", 4) by {
      assert IdentEnd(s, 3) == 4 && s[3..4] == "b";
    }
    assert SkipBlanks(s, 4) == 4 && ScanUntil(s, 4, {':'}) == 4;
    assert SkipBlanks(s, 5) == 5;
    assert ValueRead(s, 5) == Read("c", 7) by {
      assert ScanUntil(s, 5, {';'}) == 6 && s[5..6] == "c";
      TrimOfTrimmed("c");
    }
    assert SkipBlanks(s, 7) == 7;
  }

  lemma TrailingLast(s: string)
    requires s == "a {b:c;}"
    ensures DeclarationRead(s, 7) == Read(Declaration("", ""), 10)
  {
    assert SkipBlanks(s, 7) == 7;
    assert IdentRead(s, 7) == Read("", 7) by {
      assert IdentEnd(s, 7) == 7;
    }
    assert ScanUntil(s, 7, {':'}) == 8;
    assert ValueRead(s, 9) == Read("", 10) by {
      assert ScanUntil(s, 9, {';'}) == 9;
    }
  }

  /** `a {x:1;} b {y:2;}`: the `}` after the first `;` starts a nameless
      declaration whose value is the text after the next `:`, so the second
      rule's selector and name are swallowed, and the last `}` gives an empty
      declaration. */
  lemma SecondRuleExample()
    ensures Parse("a {x:1;} b {y:2;}")
            == [Rule([Selector("a", "", "")], [Declaration("x", "1"), Declaration("", "2"), Declaration("", "")])]
  {
    var s := "a {x:1;} b {y:2;}";
    TrimOfTrimmed(s);
    SecondSelectors(s);
    SecondDeclarations(s);
    ParseOneRule(s);
  }

  lemma SecondSelectors(s: string)
    requires s == "a {x:1;} b {y:2;}"
    ensures SelectorsRead(s, 0, []) == Read([Selector("a", "", "")], 3)
  {
    assert SelectorRead(s, 0) == Read(Selector("a", "", ""), 1) by {
      assert IdentEnd(s, 0) == 1 && s[0..1] == "a";
    }
    assert SelectorsRead(s, 2, [Selector("a", "", "")]) == Read([Selector("a", "", "")], 3) by {
      assert SkipBlanks(s, 2) == 2;
    }
    assert SkipBlanks(s, 0) == 0 && [] + [Selector("a", "", "")] == [Selector("a", "", "")];
    assert SelectorsAt(s, 0, []) == SelectorsRead(s, 2, [Selector("a", "", "")]);
  }

  lemma SecondDeclarations(s: string)
    requires s == "a {x:1;} b {y:2;}"
    ensures DeclarationsRead(s, 3, []) == Read([Declaration("x", "1"), Declaration("", "2"), Declaration("", "")], 19)
  {
    var d1, d2, d3 := Declaration("x", "1"), Declaration("", "2"), Declaration("", "");
    SecondFirst(s);
    SecondMiddle(s);
    SecondLast(s);
    assert [] + [d1] == [d1];
    assert [d1] + [d2] == [d1, d2];
    assert [d1, d2] + [d3] == [d1, d2, d3];
    assert DeclarationsRead(s, 19, [d1, d2, d3]) == Read([d1, d2, d3], 19);
    assert DeclarationsRead(s, 16, [d1, d2]) == DeclarationsRead(s, 19, [d1, d2, d3]);
    assert DeclarationsRead(s, 7, [d1]) == DeclarationsRead(s, 16, [d1, d2]);
  }

  lemma SecondFirst(s: string)
    requires s == "a {x:1;} b {y:2;}"
    ensures DeclarationRead(s, 3) == Read(Declaration("x", "1"), 7)
  {
    assert SkipBlanks(s, 3) == 3;
    assert IdentRead(s, 3) == Read("x", 4) by {
      assert IdentEnd(s, 3) == 4 && s[3..4] == "x";
    }
    assert SkipBlanks(s, 4) == 4 && ScanUntil(s, 4, {':'}) == 4;
    assert SkipBlanks(s, 5) == 5;
    assert ValueRead(s, 5) == Read("1", 7) by {
      assert ScanUntil(s, 5, {';'}) == 6 && s[5..6] == "1";
      TrimOfTrimmed("1");
    }
    assert SkipBlanks(s, 7) == 7;
  }

  lemma SecondMiddle(s: string)
    requires s == "a {x:1;} b {y:2;}"
    ensures DeclarationRead(s, 7) == Read(Declaration("", "2"), 16)
  {
    assert SkipBlanks(s, 7) == 7;
    assert IdentRead(s, 7) == Read("", 7) by {
      assert IdentEnd(s, 7) == 7;
    }
    assert ScanUntil(s, 7, {':'}) == 13 by {
      assert s[7] == '}';
      assert s[8] == ' ';
      assert s[9] == 'b';
      assert s[10] == ' ';
      assert s[11] == '{';
      assert s[12] == 'y';
      assert s[13] == ':';
      ScanUntilAt(s, 7, 13, {':'});
    }
    assert SkipBlanks(s, 14) == 14;
    assert ValueRead(s, 14) == Read("2", 16) by {
      assert ScanUntil(s, 14, {';'}) == 15 && s[14..15] == "2";
      TrimOfTrimmed("2");
    }
    assert SkipBlanks(s, 16) == 16;
  }

  lemma SecondLast(s: string)
    requires s == "a {x:1;} b {y:2;}"
    ensures DeclarationRead(s, 16) == Read(Declaration("", ""), 19)
  {
    assert SkipBlanks(s, 16) == 16;
    assert IdentRead(s, 16) == Read("", 16) by {
      assert IdentEnd(s, 16) == 16;
    }
    assert ScanUntil(s, 16, {':'}) == 17;
    assert ValueRead(s, 18) == Read("", 19) by {
      assert ScanUntil(s, 18, {';'}) == 18;
    }
  }
}
