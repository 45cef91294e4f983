/** The style-sheet parser of src/CssParser.ts as functions: one function per
    method or loop of the class, each taking the (trimmed) input text and the
    cursor index and returning what the method returns together with the new
    cursor. The class `CssParsing.CssParser` is proved to compute exactly these. */
module CssSpec {
  import opened Scanner

  /** A simple selector; at most one of its fields is filled in by the parser. */
  datatype Selector = Selector(tagName: string, id: string, className: string)

  /** `name: value;`. The source types the value `string | number`, but the
      parser only ever stores strings. */
  datatype Declaration = Declaration(name: string, value: string)

  datatype Rule = Rule(selectors: seq<Selector>, declarations: seq<Declaration>)

  /** The selector with nothing filled in. */
  const NoSelector := Selector("", "", "")

  /** `/\w|-|_/`: an ASCII letter, digit, underscore or hyphen. */
  predicate IsIdentChar(c: char) {
    IsWordChar(c) || c == '-' || c == '_'
  }

  /** The loop of `parseIdentifier` tests `identifierRE` only inside the text;
      the loop of `parseSelectors` tests it on `rawText[index]` unguarded, and
      past the end that is `undefined`, whose text "undefined" the expression
      matches. */
  predicate StartsSelector(s: string, p: nat) {
    p >= |s| || IsIdentChar(s[p]) || s[p] == '*' || s[p] == '.' || s[p] == '#'
  }

  /** At most one of the three fields is non-empty. */
  predicate SingleAxis(sel: Selector) {
    (sel.tagName != "" ==> sel.id == "" && sel.className == "")
    && (sel.id != "" ==> sel.className == "")
  }

  /** Where `parseIdentifier` stops: the end of the longest run of identifier
      characters starting at `i` (the run may be empty). */
  function IdentEnd(s: string, i: nat): (j: nat)
    decreases Rest(s, i)
    ensures i <= j
    ensures i >= |s| ==> j == i
    ensures i < |s| ==> j <= |s|
    ensures j < |s| ==> !IsIdentChar(s[j])
  {
    if i < |s| && IsIdentChar(s[i]) then IdentEnd(s, i + 1) else i
  }

  /** Every character of the run is an identifier character. */
  lemma {:induction false} IdentEndSkips(s: string, i: nat)
    ensures forall k | i <= k < IdentEnd(s, i) :: k < |s| && IsIdentChar(s[k])
    decreases Rest(s, i)
  {
    if i < |s| && IsIdentChar(s[i]) {
      IdentEndSkips(s, i + 1);
    }
  }

  /** `parseIdentifier`. */
  function IdentRead(s: string, i: nat): (r: Read<string>)
    ensures r.end == IdentEnd(s, i)
    ensures r.value == Consumed(s, i, r.end)
  {
    var j := IdentEnd(s, i);
    Read(Consumed(s, i, j), j)
  }

  /** `parseSelector` at `i`: `*` is the universal tag, `.` a class, `#` an id,
      and anything else (past the end too, where the `switch` sees `undefined`)
      a tag name read as an identifier. */
  function SelectorRead(s: string, i: nat): (r: Read<Selector>)
    ensures i <= r.end
    ensures SingleAxis(r.value)
  {
    if i < |s| && s[i] == '*' then Read(Selector("*", "", ""), i + 1)
    else if i < |s| && s[i] == '.' then
      var name := IdentRead(s, i + 1);
      Read(Selector("", "", name.value), name.end)
    else if i < |s| && s[i] == '#' then
      var name := IdentRead(s, i + 1);
      Read(Selector("", name.value, ""), name.end)
    else
      var name := IdentRead(s, i);
      Read(Selector(name.value, "", ""), name.end)
  }

  /** The positions left from `i` up to and including the one just past the
      end, where the selector loop can still read an (empty) selector. */
  function Ahead(s: string, i: nat): nat {
    if i <= |s| then |s| + 1 - i else 0
  }

  /** The loop of `parseSelectors` from `i`, with the selectors read so far in
      `acc`. Each iteration skips blanks and reads a selector at a selector
      character, or after a comma (`removeSpaces` on the comma itself moves
      nothing, so the selector is read at the comma and is empty); it stops
      after a `{`, and in every other case steps one character further, which
      also skips the character that follows a selector. */
  function SelectorsRead(s: string, i: nat, acc: seq<Selector>): (r: Read<seq<Selector>>)
    decreases Ahead(s, i), 1
    ensures i <= r.end
    ensures i < |s| ==> i < r.end
  {
    if i >= |s| then Read(acc, i) else SelectorsAt(s, SkipBlanks(s, i), acc)
  }

  /** One iteration of that loop once the blanks are skipped, at `p`. */
  function SelectorsAt(s: string, p: nat, acc: seq<Selector>): (r: Read<seq<Selector>>)
    requires p <= |s|
    decreases Ahead(s, p), 0
    ensures p < r.end
  {
    if StartsSelector(s, p) then
      var sel := SelectorRead(s, p);
      SelectorsRead(s, sel.end + 1, acc + [sel.value])
    else if s[p] == ',' then
      var sel := SelectorRead(s, SkipBlanks(s, p));
      SelectorsRead(s, sel.end + 1, acc + [sel.value])
    else if s[p] == '{' then Read(acc, p + 1)
    else SelectorsRead(s, p + 1, acc)
  }

  /** `parseValue` at `i`: the text before the next `;` (or the end of input),
      trimmed; the cursor steps over the `;`. */
  function ValueRead(s: string, i: nat): (r: Read<string>)
    ensures i < r.end
  {
    var e := ScanUntil(s, i, {';'});
    Read(Trim(Consumed(s, i, e)), e + 1)
  }

  /** The value holds no `;` and is trimmed; the cursor ends just past the first
      `;` after `i`, or past the end of input when there is none. */
  lemma ValueReadShape(s: string, i: nat)
    ensures var r := ValueRead(s, i);
            ';' !in r.value && Trimmed(r.value)
            && (r.end - 1 < |s| ==> s[r.end - 1] == ';')
            && ';' !in Consumed(s, i, r.end - 1)
  {
    var e := ScanUntil(s, i, {';'});
    var v := Consumed(s, i, e);
    ScanUntilSkips(s, i, {';'});
    assert ';' !in v by {
      if i <= e <= |s| {
        assert forall k | 0 <= k < |v| :: v[k] == s[i + k];
      }
    }
    TrimKeepsAbsent(v, ';');
    TrimShape(v);
  }

  /** The value is the text from `i` up to the first `;` (or the end), trimmed. */
  lemma ValueReadContent(s: string, i: nat)
    requires i <= |s|
    ensures ValueRead(s, i).end - 1 == ScanUntil(s, i, {';'})
    ensures ValueRead(s, i).value == Trim(s[i..ScanUntil(s, i, {';'})])
  {
  }

  /** `parseDeclaration` at `i`: skip blanks, then read from there. */
  function DeclarationRead(s: string, i: nat): (r: Read<Declaration>)
    ensures i < r.end
  {
    DeclarationAt(s, SkipBlanks(s, i))
  }

  /** Read the name as an identifier, skip blanks, skip everything up to the next `:`. */
  function DeclarationAt(s: string, p: nat): (r: Read<Declaration>)
    ensures p < r.end
  {
    var name := IdentRead(s, p);
    DeclarationValue(s, name.value, ScanUntil(s, SkipBlanks(s, name.end), {':'}))
  }

  /** Step over the `:`, skip blanks, read the value, skip blanks. */
  function DeclarationValue(s: string, name: string, colon: nat): (r: Read<Declaration>)
    ensures colon < r.end
  {
    var value := ValueRead(s, SkipBlanks(s, colon + 1));
    Read(Declaration(name, value.value), SkipBlanks(s, value.end))
  }

  /** The loop of `parseDeclarations`: declarations until the end of input. */
  function DeclarationsRead(s: string, i: nat, acc: seq<Declaration>): (r: Read<seq<Declaration>>)
    decreases Rest(s, i)
    ensures i <= r.end && |s| <= r.end
  {
    if i >= |s| then Read(acc, i)
    else
      var d := DeclarationRead(s, i);
      DeclarationsRead(s, d.end, acc + [d.value])
  }

  /** `parseRule`: the selectors, then the declarations. */
  function RuleRead(s: string, i: nat): (r: Read<Rule>)
    ensures |s| <= r.end
  {
    var sels := SelectorsRead(s, i, []);
    var decls := DeclarationsRead(s, sels.end, []);
    Read(Rule(sels.value, decls.value), decls.end)
  }

  /** The loop of `parseRules`: rules until the end of input. */
  function RulesRead(s: string, i: nat, acc: seq<Rule>): (r: Read<seq<Rule>>)
    decreases Rest(s, i)
    ensures i <= r.end
  {
    if i >= |s| then Read(acc, i)
    else
      var r := RuleRead(s, i);
      RulesRead(s, r.end, acc + [r.value])
  }

  /** `parse`: trim the input, then read rules from index 0. */
  function Parse(rawText: string): seq<Rule> {
    RulesRead(Trim(rawText), 0, []).value
  }
}
