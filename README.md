# tiny-rendering-engine core, modelled in Dafny

This project models the three front stages of a toy browser rendering engine:

- `src/HtmlParser.ts` turns markup text into a tree of element and text nodes. It uses a cursor and a stack of open tag names.
- `src/CssParser.ts` turns a style sheet into a list of rules. Each rule has selectors and `name: value` declarations.
- `src/style.ts` walks the node tree and computes each node's style values. A node's values come from three layers, in order:
  1. the inheritable values of its parent (`color`, `font-size`);
  2. the declarations of every matching rule;
  3. its inline `styles` attribute.

Each parser appears twice.

- **As functions.** Modules `HtmlSpec` and `CssSpec` have one function per method or loop of the source class. Each function takes the text, the cursor index and the stack. It returns what the method returns, together with the new cursor and stack. The parser's error paths are values of `HtmlSpec.ParseError`:
  - a closing tag that does not match;
  - a read of `rawText[index]` past the end, which is a JavaScript `TypeError` in the source;
  - the attribute loop that repeats an iteration which consumes nothing and so never ends.
- **As classes.** `HtmlParsing.HtmlParser` and `CssParsing.CssParser` hold a cursor over the text. The HTML parser also holds the stack. Their methods change these fields step by step with `while` loops, and each method is proved to compute its function.

The properties are lemmas about the functions. They are:
- the shape of every tree, selector and declaration the parsers build;
- the input order of nodes and selectors;
- the stack discipline;
- the two test fixtures of `tests/htmlParser.spec.ts`.

The style resolver is pure. It is modelled as functions in `Cascade`, and its properties are in `CascadeProperties`.

Some behaviours of the source are modelled as they are written:
- A `<` that is the last character counts as the start of a tag. `RegExp.test(undefined)` tests the text `"undefined"`, which matches `\w`.
- `parseSelectors` steps over the character that follows each selector. So in `a{b:c}` the `{` is skipped, and `b` and `c` become selectors.
- Nothing ends the declaration loop before the end of input, so a style sheet yields at most one rule. A `}` after a `;` starts a declaration with an empty name. If no `:` follows, its value is empty, as in `a {b:c;}`. Otherwise its value is the text after the next `:`, so the selectors and names of later rules are swallowed: `a {x:1;} b {y:2;}` gives `x: 1`, a nameless `2` and a nameless empty declaration. Without the `;`, as in `a {b:c}`, the `}` is part of the value `c}`.

## Model

| member | source | states |
|---|---|---|
| Whitespace.CollapsedByRuns | src/HtmlParser.ts:165-185 | The `removeExtraSpaces` loop equals the run-by-run definition: every maximal run of spaces and line feeds becomes one space |
| Whitespace.CollapseShape | src/HtmlParser.ts:170-182 | Collapsed text holds no line feed and no two spaces in a row |
| Whitespace.CollapseKeepsNonBlanks | src/HtmlParser.ts:170-182 | Every non-blank character is kept, in order, and every other character of the result is a space |
| Whitespace.CollapsedIdempotent | src/HtmlParser.ts:165-185 | Collapsing twice gives what collapsing once gives |
| HtmlParsing.RemoveExtraSpaces | src/HtmlParser.ts:165-185 | The imperative loop returns the collapsed text |
| Scanner.Cursor.RemoveSpaces | src/HtmlParser.ts:116 | Advances the cursor over spaces and line feeds to the first other character or the end, text unchanged |
| Scanner.Cursor.ReadUntil | src/HtmlParser.ts:118-121 | The scanning loop stops at the first stop character or the end and returns exactly the characters passed over |
| Scanner.SkipBlanksSkips | src/HtmlParser.ts:116 | Every position that skipping blanks passes over holds a space or a line feed |
| Scanner.ScanUntilSkips | src/HtmlParser.ts:118-121 | No position a scan passes over holds a stop character |
| Scanner.TrimShape | src/HtmlParser.ts:145 | `trim` leaves no white space at either end and never lengthens |
| Scanner.TrimIsInfix | src/CssParser.ts:26 | `trim` returns a contiguous part of its input with only white space before and after it |
| Scanner.TrimEmpty | src/style.ts:91-92 | `trim` gives the empty string exactly when every character is white space |
| Scanner.TrimIdempotent | src/CssParser.ts:26 | Trimming twice is trimming once |
| Scanner.SplitJoin | src/style.ts:93 | Joining the pieces of a split with the separator gives back the input |
| Scanner.JoinSplit | src/style.ts:93 | Splitting a join of separator-free pieces gives back the pieces |
| Scanner.SplitCount | src/style.ts:97-98 | A split has one more piece than the input has separators |
| Scanner.SplitPieces | src/style.ts:97 | No piece of a split holds the separator |
| HtmlSpec.TextStop | src/HtmlParser.ts:105 | The text loop stops at or after the cursor, within the input, and only at a `<` followed by a word character, a `/` or the end |
| HtmlSpec.TextStopSkips | src/HtmlParser.ts:105 | No position the text loop passes over is such a tag boundary |
| HtmlSpec.TagReadShape | src/HtmlParser.ts:113-125 | The tag name holds no space and no `>`, and the cursor ends on the space or `>` that ended it or at the end |
| HtmlSpec.AttributeReadTrimmed | src/HtmlParser.ts:136-161 | An attribute is stored under a non-empty trimmed name with a trimmed value, and trimmed attributes stay trimmed |
| HtmlSpec.AttributesReadTrimmed | src/HtmlParser.ts:127-134 | All attributes the loop collects have non-empty trimmed names and trimmed values |
| HtmlSpec.ElementRead | src/HtmlParser.ts:67-101 | A parsed element moves the cursor on and leaves the stack no shorter than before |
| HtmlSpec.Parse | src/HtmlParser.ts:63-64 | `parse` fails exactly when the top-level loop fails, with its error. It returns the single node exactly when the loop read exactly one, and that node is it; otherwise it returns the whole list the loop read |
| HtmlProperties.TextReadWellBuilt | src/HtmlParser.ts:103-111 | A text node holds no line feed and no two spaces in a row |
| HtmlProperties.ElementReadShape | src/HtmlParser.ts:67-101 | A parsed element is well built and named by `parseTag`. The stack afterwards is as before, unless the input ran out with the element still open |
| HtmlProperties.ChildrenReadShape | src/HtmlParser.ts:76-99 | The children loop keeps the nodes read so far as a prefix in input order and adds only well-built nodes. It pops the element's name, unless the input ran out first |
| HtmlProperties.ChildAtShape | src/HtmlParser.ts:77-98 | One iteration of the children loop keeps the same prefix, shape and stack facts |
| HtmlProperties.ChildElementShape | src/HtmlParser.ts:93-95 | A nested element child keeps the prefix, shape and stack facts |
| HtmlProperties.ChildTextShape | src/HtmlParser.ts:96-98 | A text child keeps the prefix, shape and stack facts |
| HtmlProperties.RootReadShape | src/HtmlParser.ts:52-61 | The top-level loop keeps the nodes read so far as a prefix in input order and adds only well-built nodes |
| HtmlProperties.RootAtShape | src/HtmlParser.ts:53-60 | One top-level iteration keeps the same facts |
| HtmlProperties.ParseWellBuilt | src/HtmlParser.ts:41-65 | Every tree or list that `parse` returns is well built |
| HtmlProperties.AttributeBlankName | src/HtmlParser.ts:139-146 | An attribute name that trims to empty adds nothing and leaves the cursor at the `=` or `>`, and only such a name does |
| HtmlProperties.AttributeQuotedValue | src/HtmlParser.ts:148-159 | A quoted value runs to the matching quote or the end. It is stored trimmed under the trimmed name, every other attribute is kept, and the cursor ends past the quote |
| HtmlProperties.AttributeUnquotedValue | src/HtmlParser.ts:149-158 | Without an opening quote the value runs to the end of input, and the cursor ends one or two past it |
| HtmlProperties.ClosingTag | src/HtmlParser.ts:81-92 | A closing tag fails with an error naming both tags exactly when its name differs from the popped one. Otherwise it ends the loop with the children so far, the stack popped and the cursor on the `>` |
| HtmlProperties.MismatchExample | src/HtmlParser.ts:85-87 | `<a></b>` fails with the mismatch of `a` and `b` |
| HtmlExamples.PlainElement | src/HtmlParser.ts:67-101 | An element without attributes whose children loop ends at its closing tag has that name and those children, and the cursor ends past the `>` |
| HtmlExamples.CloseAt | src/HtmlParser.ts:81-92 | A matching closing tag ends the loop, pops the stack and leaves the cursor on its `>` |
| HtmlExamples.QuotedRead | src/HtmlParser.ts:136-161 | A double-quoted attribute with trimmed name and value is stored as written, without the quotes, and the cursor ends past the closing quote |
| HtmlExamples.AttributeRound | src/HtmlParser.ts:128-132 | An attribute round that moves the cursor continues the loop after the blanks that follow |
| HtmlExamples.SoleElement | src/HtmlParser.ts:63 | A document that is one element is returned as that single node |
| HtmlExamples.TrailingBlanksFail | src/HtmlParser.ts:52-55 | A document that is one element, with only blanks before and after it and at least one after, fails with `ReadPastEnd` at the end of input: the loop skips the blanks and then inspects the character past the end |
| HtmlExamples.NestedExample | tests/htmlParser.spec.ts:5-29 | `<html><body><div>test!</div></body></html>` gives html holding body holding div holding the text `test!` |
| HtmlExamples.AttributeExample | tests/htmlParser.spec.ts:104-123 | `<div class="lightblue test" id="div" data-index="1">test!</div>` gives one div with exactly those three attributes and the text `test!` |
| HtmlParsing.HtmlParser.Parse | src/HtmlParser.ts:41-65 | Returns exactly the functional parse of the text, error included |
| HtmlParsing.HtmlParser.ParseTopLevel | src/HtmlParser.ts:52-61 | One top-level iteration either fails as the functional loop does or adds a node and moves the cursor, so that the rest of the loop gives the same result |
| HtmlParsing.HtmlParser.ParseTopElement | src/HtmlParser.ts:55-57 | A top-level element iteration agrees with the functional loop in the same way |
| HtmlParsing.HtmlParser.ParseElement | src/HtmlParser.ts:67-101 | Returns the element, or the error, that the functional reading gives, and leaves cursor and stack where it says |
| HtmlParsing.HtmlParser.ParseChildren | src/HtmlParser.ts:76-99 | The children loop returns the children, or the error, of the functional loop, with its final cursor and stack |
| HtmlParsing.HtmlParser.ParseChild | src/HtmlParser.ts:77-98 | One children iteration fails, closes the element or adds a node, in agreement with the functional loop |
| HtmlParsing.HtmlParser.ParseMarkup | src/HtmlParser.ts:78-95 | After a `<`, a closing tag or a nested element, in agreement with the functional loop |
| HtmlParsing.HtmlParser.ParseClosingTag | src/HtmlParser.ts:81-91 | Pops one name off the stack and compares it with the closing tag as the functional reading does |
| HtmlParsing.HtmlParser.ParseText | src/HtmlParser.ts:103-111 | Returns the collapsed text up to the next tag boundary, and the cursor there |
| HtmlParsing.HtmlParser.ParseTag | src/HtmlParser.ts:113-125 | Returns the tag name and the cursor after it |
| HtmlParsing.HtmlParser.ParseAttributes | src/HtmlParser.ts:127-134 | Returns the attributes, or the non-termination error, of the functional loop |
| HtmlParsing.HtmlParser.ParseAttribute | src/HtmlParser.ts:136-161 | Adds the attribute as the functional reading does |
| HtmlParsing.HtmlParser.ParseAttributeValue | src/HtmlParser.ts:148-159 | Reads the value with the stop character chosen by the opening quote |
| CssSpec.IdentEnd | src/CssParser.ts:129 | The identifier loop stops at or after the cursor, within the input, and only at a character that is not an identifier character |
| CssSpec.IdentEndSkips | src/CssParser.ts:129-131 | Every position the identifier loop passes over holds an identifier character |
| CssSpec.SelectorRead | src/CssParser.ts:72-96 | A selector has at most one of tag, id and class filled in |
| CssSpec.ValueReadShape | src/CssParser.ts:137-146 | A value holds no `;` and is trimmed, and the cursor ends just past the first `;` or past the end |
| CssSpec.ValueReadContent | src/CssParser.ts:137-146 | The value is the text from the cursor up to the first `;` or the end, trimmed, and the cursor ends just past that point |
| CssSpec.DeclarationsRead | src/CssParser.ts:98-104 | The declaration loop always runs to the end of input |
| CssSpec.RuleRead | src/CssParser.ts:40-50 | Reading a rule always consumes the rest of the input |
| CssProperties.IdentReadMaximal | src/CssParser.ts:127-135 | `parseIdentifier` returns the longest run of identifier characters at the cursor |
| CssProperties.SelectorReadKinds | src/CssParser.ts:79-94 | The tag is `*` exactly on a `*`. After `.` the class is the identifier read after it, and after `#` so is the id. On any other character the tag is the identifier read there, and past the end the selector is empty. All names are identifiers |
| CssProperties.SelectorsReadPrefix | src/CssParser.ts:52-70 | The selector loop only appends, in input order |
| CssProperties.SelectorsReadShape | src/CssParser.ts:52-70 | Every selector the loop appends has at most one field filled in, and the loop ends just past a `{` or at the end |
| CssProperties.SelectorsAtShape | src/CssParser.ts:56-67 | One iteration of the selector loop keeps the same facts as the whole loop |
| CssProperties.DeclarationReadShape | src/CssParser.ts:106-125 | A declaration's name is an identifier and its value is trimmed without `;` |
| CssProperties.DeclarationReadContent | src/CssParser.ts:106-125 | The name is the longest identifier run after the blanks. The value is the text after the next `:` and its blanks, up to the next `;`, trimmed. It is empty when no `:` follows |
| CssProperties.DeclarationsReadPrefix | src/CssParser.ts:98-104 | The declaration loop only appends, in input order |
| CssProperties.DeclarationsReadShaped | src/CssParser.ts:98-104 | Every declaration the loop appends is shaped as `parseDeclaration` promises |
| CssProperties.ParseOneRule | src/CssParser.ts:32-38 | `parse` returns no rule for blank text and otherwise exactly the one rule read from the start |
| CssProperties.ParseBlank | src/CssParser.ts:22-37 | `parse` returns no rule exactly when the text is all white space |
| CssProperties.ParseShape | src/CssParser.ts:22-30 | Every rule's selectors and declarations have the shapes above |
| CssProperties.SkippedBraceExample | src/CssParser.ts:63-67 | `a{b:c}` gives one rule with the selectors `a`, `b`, `c` and no declarations |
| CssProperties.TrailingBraceExample | src/CssParser.ts:98-125 | `a {b:c;}` gives the selector `a`, the declaration `b: c`, and an empty declaration for the `}` |
| CssProperties.BraceDeclaration | src/CssParser.ts:106-112 | A declaration read where a `}` stands after the blanks has an empty name, because `}` is not an identifier character |
| CssProperties.SecondRuleExample | src/CssParser.ts:98-125 | `a {x:1;} b {y:2;}` gives one rule: selector `a` with `x: 1`, a nameless `2` (the `}` swallows ` b {y` up to the `:`), and a nameless empty declaration for the last `}` |
| CssParsing.CssParser.Parse | src/CssParser.ts:22-30 | Returns exactly the functional parse of the trimmed text |
| CssParsing.CssParser.ParseRules | src/CssParser.ts:32-38 | The rules loop computes the functional loop |
| CssParsing.CssParser.ParseRule | src/CssParser.ts:40-50 | Returns the functional rule and cursor |
| CssParsing.CssParser.ParseSelectors | src/CssParser.ts:52-70 | The selectors loop computes the functional loop |
| CssParsing.CssParser.ParseSelectorsStep | src/CssParser.ts:56-67 | One iteration moves the cursor on and stops on `{`, adds a selector or skips a character, in agreement with the functional loop |
| CssParsing.CssParser.ParseSelector | src/CssParser.ts:72-96 | Returns the functional selector and cursor |
| CssParsing.CssParser.ParseDeclarations | src/CssParser.ts:98-104 | The declarations loop computes the functional loop |
| CssParsing.CssParser.ParseDeclaration | src/CssParser.ts:106-125 | Returns the functional declaration and cursor |
| CssParsing.CssParser.ParseIdentifier | src/CssParser.ts:127-135 | Returns the functional identifier and cursor |
| CssParsing.CssParser.ParseValue | src/CssParser.ts:137-146 | Returns the functional value and cursor |
| CascadeProperties.InheritFoldEntries | src/style.ts:58-64 | The `reduce` over any list of the parent's names keeps exactly the listed `color` and `font-size` entries, with the parent's values |
| CascadeProperties.InheritFoldMatches | src/style.ts:55-65 | For every order in which `Object.keys` may list the parent's names, the `reduce` gives the same values as `InheritedBase`, the map of the parent's inheritable entries |
| CascadeProperties.InheritedBaseIdempotent | src/style.ts:55-65 | Inheriting from inherited values adds and changes nothing |
| CascadeProperties.DeclMapKeys | src/style.ts:83-88 | A name has a value exactly when some declaration has that name |
| CascadeProperties.DeclMapLastWins | src/style.ts:83-88 | The last declaration of a name gives its value |
| CascadeProperties.TokensShape | src/style.ts:73-74 | Class tokens are non-empty and hold no space, and blank text has none |
| CascadeProperties.NonEmptyShape | src/style.ts:73-74 | Filtering out empty pieces keeps only non-empty pieces of the input |
| Cascade.SharesClass | src/style.ts:75-77 | The loop over the element's classes answers true exactly when some class is among the selector's classes |
| CascadeProperties.IsMatchSome | src/style.ts:67-81 | `isMatch` holds exactly when one of the selectors matches |
| CascadeProperties.EmptySelectorNeverMatches | src/style.ts:69-79 | A selector with all fields empty matches no element |
| CascadeProperties.ApplyRulesKeys | src/style.ts:47-52 | A name has a value after the rules exactly when it had one before or some matching rule declares it |
| CascadeProperties.ApplyRulesLastWins | src/style.ts:47-52 | The last matching rule that declares a name gives its value |
| CascadeProperties.ApplyRulesUntouched | src/style.ts:47-52 | A name no matching rule declares keeps its inherited value |
| CascadeProperties.InlineBlank | src/style.ts:91-92 | Blank inline text gives no entries |
| CascadeProperties.PairSplit | src/style.ts:97-98 | An inline item is kept exactly when it holds exactly one `:` |
| CascadeProperties.InlineItemsKeys | src/style.ts:96-103 | A name has an inline value exactly when some item with one `:` has that trimmed name |
| CascadeProperties.InlineItemsLastWins | src/style.ts:96-103 | The last item with one `:` whose trimmed name is `k` gives `k` its value: the trimmed text after the `:` |
| CascadeProperties.InlineStyleShape | src/style.ts:90-103 | Every inline name and value is trimmed and holds neither `:` nor `;` |
| CascadeProperties.InlineItemsShape | src/style.ts:96-103 | The same for the items of one split |
| CascadeProperties.TextStyle | src/style.ts:24-45 | A text node gets the inherited values and no children |
| CascadeProperties.StyleMirrors | src/style.ts:24-40 | The style tree mirrors the node tree: same node, same number and order of children, each styled with the element's final values as its parent's |
| CascadeProperties.StyleForestMirrors | src/style.ts:36 | Styling a list styles each node with the same parent, in order |
| CascadeProperties.InlineOverrides | src/style.ts:33-35 | Inline styles override the rules' values and keep every other value. Without them the rules' values stand |
| CascadeProperties.ColorInherited | src/style.ts:42-65 | Every child of an element takes the element's final `color`, with or without a parent of the element and whatever gave it that colour. A text child always does; an element child does unless one of its matching rules or its inline styles sets `color` |
| CascadeProperties.InheritExample | src/style.ts:24-65 | A `.note{color:blue;margin:0}` rule reaches the text inside a `note` div as `color: blue` only |
| CascadeProperties.ExampleValues | src/style.ts:42-53 | The `note` div of that example gets `color: blue` and `margin: 0` from the class rule |
| CascadeProperties.TreeNeverReturns | src/style.ts:14-22 | `getStyleTree` as written returns only for the empty list, whatever the call depth allowed |
| CascadeProperties.MapNeverReturns | src/style.ts:18-20 | Its `map` returns only for the empty list |

## Left out

- Parser.ts, the base class of both parsers, is not part of this model. `Scanner.Cursor` stands in for it.
  - `removeSpaces` is modelled as skipping spaces and line feeds, the same characters `removeExtraSpaces` treats as blank.
  - `sliceText` is left out, because on an index cursor it changes nothing the parsers read.
  - `len` is the length of the text.
- The `typeof rawText !== 'string'` checks (src/HtmlParser.ts:42-44, src/CssParser.ts:23-25) are left out, because the model's input is always a string.
- The `console.log` at src/HtmlParser.ts:54 is left out, because it is I/O.
- Children and attributes are not pushed into a parent object in place. Each parsing method returns the node or map it built and the caller appends it. The tree is the same; object identity and aliasing are not modelled.
- The two JavaScript crashes are error values: `ReadPastEnd` for reading `rawText[index]` past the end, and `NeverTerminates` for the attribute loop that cannot progress.
- Methods are split into smaller ones to keep the proofs small:
  - `parseElement` becomes ParseElement, ParseChildren, ParseChild, ParseMarkup and ParseClosingTag;
  - `parseAttribute` becomes ParseAttribute and ParseAttributeValue;
  - the loop bodies of `parse` and `parseSelectors` become ParseTopLevel, ParseTopElement and ParseSelectorsStep.
- `startSymbol` in `parseAttribute` is modelled as a set of stop characters. It is empty when the value is unquoted, because no character equals `''`.
- Characters are Dafny `char`s, not UTF-16 code units, so astral characters count as one.
- `Declaration.value` is typed `string | number` in the source, but the parser only ever stores strings, so the model uses strings. The selector field `class` is named `className`.
- Style objects are maps. The order of `Object.keys` does not change the values computed, and InheritFoldMatches proves this for `getInheritableAttributeValue`.
- The key `__proto__` is stored like any other name. In JavaScript, writing a string under `__proto__` (src/HtmlParser.ts:159, src/style.ts:85, src/style.ts:99) goes to the `Object.prototype` setter and adds no entry. So for `<a __proto__="x">`, `a{__proto__:red}` and `styles="__proto__: red"` the model has one entry more than the source.
- TreeReturns: models only whether `getStyleTree` returns, so the rules and the parent are left out.
- src/dom.ts is context only and is not modelled. Its `NodeType` key differs from the parser's `nodeType`, which is why the tests expect key names the parser does not emit. The test fixture with line breaks (tests/htmlParser.spec.ts:31-71, 76-83) is left out because no tree follows from the code for it. Its expected tree holds `" "` text nodes between the elements, which the code never produces because it skips the blanks before each child (src/HtmlParser.ts:76-77). Its input ends in blanks after `</html>`, so the top-level loop skips them to the end and reads `rawText[len]` (src/HtmlParser.ts:52-55). The model then fails with `ReadPastEnd`, as TrailingBlanksFail states for every document that is one element with blanks around it.
- NestedExample and AttributeExample: the inputs are written as concatenations of short literals. That is the same string, and it keeps the verifier's unfolding of character indexing short.

## Findings

| source | as written | input that shows it | evidently intended | confidence | as-written member | corrected member |
|---|---|---|---|---|---|---|
| src/style.ts:14-22 | A single node is wrapped in a list, and then every element of a list is passed back to `getStyleTree` on its own, so the call to `getStyleNode` is never reached | any node, e.g. `getStyleTree(text("a"), [])` recurses without end | style every node of the list (or the single node) with `getStyleNode` | not executed | CascadeProperties.TreeNeverReturns | CascadeProperties.StyleForestMirrors |
