/** The two inputs of the markup parser's tests that fix the shape of the
    tree: nested elements, and an element with three quoted attributes. The
    general lemmas first say how the parser's model reads a plain element, a
    closing tag and one quoted attribute; the fixtures then only supply where
    each piece of their text lies. */
module HtmlExamples {
  import opened Scanner
  import opened Whitespace
  import opened Dom
  import opened HtmlSpec

  /** A name from `i` up to a `>` at `j`, with no blank, space or `>` in it. */
  predicate NameUpTo(s: string, i: nat, j: nat) {
    i < j < |s| && s[j] == '>' && forall k | i <= k < j :: !IsBlank(s[k]) && s[k] != '>'
  }

  lemma TagAt(s: string, i: nat, j: nat)
    requires NameUpTo(s, i, j)
    ensures TagRead(s, i) == Read(s[i..j], j)
  {
    SkipBlanksAt(s, i, i);
    ScanUntilAt(s, i, j, {' ', '>'});
  }

  /** An element with no attributes: its name up to `>` at `j`, then its
      children up to the closing tag. */
  lemma PlainElement(s: string, i: nat, j: nat, stack: seq<string>, kids: seq<Node>, e: nat)
    requires NameUpTo(s, i, j)
    requires ChildrenRead(s, j + 1, stack + [s[i..j]], []) == Ok(Step(kids, e, stack))
    ensures ElementRead(s, i, stack) == Ok(Step(Element(s[i..j], map[], kids), e + 1, stack))
  {
    TagAt(s, i, j);
    assert AttributesRead(s, j, map[]) == Ok(Read(map[], j + 1));
  }

  /** A closing tag `</name>` with `<` at `c` whose name at `c + 2` up to `>` at
      `d` is the innermost open tag. */
  lemma CloseAt(s: string, c: nat, d: nat, st: seq<string>, acc: seq<Node>)
    requires c + 2 <= |s| && s[c] == '<' && s[c + 1] == '/' && NameUpTo(s, c + 2, d)
    requires |st| > 0 && st[|st| - 1] == s[c + 2..d]
    ensures ChildAt(s, c, st, acc) == Ok(Step(acc, d, st[..|st| - 1]))
  {
    SkipBlanksAt(s, c + 1, c + 1);
    TagAt(s, c + 2, d);
    ScanUntilAt(s, d, d, {'>'});
  }

  /** A lone child element with `<` at `p`, followed by the closing tag at `c`. */
  lemma ElementThenClose(s: string, p: nat, st: seq<string>, child: Node, c: nat, d: nat)
    requires p + 1 < |s| && s[p] == '<' && !IsBlank(s[p]) && !IsBlank(s[p + 1]) && s[p + 1] != '/'
    requires ElementRead(s, p + 1, st) == Ok(Step(child, c, st))
    requires c + 2 <= |s| && s[c] == '<' && s[c + 1] == '/' && NameUpTo(s, c + 2, d)
    requires |st| > 0 && st[|st| - 1] == s[c + 2..d]
    ensures ChildrenRead(s, p, st, []) == Ok(Step([child], d, st[..|st| - 1]))
  {
    SkipBlanksAt(s, p, p);
    SkipBlanksAt(s, p + 1, p + 1);
    SkipBlanksAt(s, c, c);
    CloseAt(s, c, d, st, [child]);
    assert [] + [child] == [child];
    assert ChildrenRead(s, c, st, [child]) == ChildAt(s, c, st, [child]);
    assert ChildAt(s, p, st, []) == ChildrenRead(s, c, st, [child]);
  }

  /** A lone text child at `p` up to the closing tag at `c`. */
  lemma TextThenClose(s: string, p: nat, st: seq<string>, t: string, c: nat, d: nat)
    requires p < |s| && s[p] != '<' && !IsBlank(s[p])
    requires TextRead(s, p) == Read(Text(t), c)
    requires c + 2 <= |s| && s[c] == '<' && s[c + 1] == '/' && NameUpTo(s, c + 2, d)
    requires |st| > 0 && st[|st| - 1] == s[c + 2..d]
    ensures ChildrenRead(s, p, st, []) == Ok(Step([Text(t)], d, st[..|st| - 1]))
  {
    SkipBlanksAt(s, p, p);
    SkipBlanksAt(s, c, c);
    CloseAt(s, c, d, st, [Text(t)]);
    assert [] + [Text(t)] == [Text(t)];
    assert ChildrenRead(s, c, st, [Text(t)]) == ChildAt(s, c, st, [Text(t)]);
    assert ChildAt(s, p, st, []) == ChildrenRead(s, c, st, [Text(t)]);
  }

  lemma NestedText(s: string)
    requires s == "<html>" + "<body>" + "<div>" + "test!" + "</div>" + "</body>" + "</html>"
    ensures TextRead(s, 17) == Read(Text("test!"), 22)
  {
    assert s[17] == 't';
    assert s[18] == 'e';
    assert s[19] == 's';
    assert s[20] == 't';
    assert s[21] == '!';
    assert s[22] == '<';
    assert s[23] == '/';
    assert TextStop(s, 22) == 22;
    assert TextStop(s, 21) == 22;
    assert TextStop(s, 20) == 22;
    assert TextStop(s, 19) == 22;
    assert TextStop(s, 18) == 22;
    assert TextStop(s, 17) == 22;
    assert s[17..22] == "test!";
    CollapsedTest();
  }

  lemma DivName(s: string)
    requires s == "<html>" + "<body>" + "<div>" + "test!" + "</div>" + "</body>" + "</html>"
    ensures NameUpTo(s, 13, 16) && s[13..16] == "div"
  {
    assert s[13] == 'd';
    assert s[14] == 'i';
    assert s[15] == 'v';
    assert s[16] == '>';
  }

  lemma DivClose(s: string)
    requires s == "<html>" + "<body>" + "<div>" + "test!" + "</div>" + "</body>" + "</html>"
    ensures s[22] == '<' && s[23] == '/' && NameUpTo(s, 24, 27) && s[24..27] == "div"
  {
    assert s[22] == '<';
    assert s[23] == '/';
    assert s[24] == 'd';
    assert s[25] == 'i';
    assert s[26] == 'v';
    assert s[27] == '>';
  }

  lemma NestedDiv(s: string)
    requires s == "<html>" + "<body>" + "<div>" + "test!" + "</div>" + "</body>" + "</html>"
    ensures ElementRead(s, 13, ["html", "body"]) == Ok(Step(Element("div", map[], [Text("test!")]), 28, ["html", "body"]))
  {
    DivName(s);
    DivClose(s);
    NestedText(s);
    assert s[17] == 't';
    var st := ["html", "body"] + ["div"];
    assert st[..2] == ["html", "body"];
    TextThenClose(s, 17, st, "test!", 22, 27);
    PlainElement(s, 13, 16, ["html", "body"], [Text("test!")], 27);
  }

  lemma BodyName(s: string)
    requires s == "<html>" + "<body>" + "<div>" + "test!" + "</div>" + "</body>" + "</html>"
    ensures NameUpTo(s, 7, 11) && s[7..11] == "body" && s[12] == '<' && s[13] == 'd'
  {
    assert s[7] == 'b';
    assert s[8] == 'o';
    assert s[9] == 'd';
    assert s[10] == 'y';
    assert s[11] == '>';
    assert s[12] == '<';
    assert s[13] == 'd';
  }

  lemma BodyClose(s: string)
    requires s == "<html>" + "<body>" + "<div>" + "test!" + "</div>" + "</body>" + "</html>"
    ensures s[28] == '<' && s[29] == '/' && NameUpTo(s, 30, 34) && s[30..34] == "body"
  {
    assert s[28] == '<';
    assert s[29] == '/';
    assert s[30] == 'b';
    assert s[31] == 'o';
    assert s[32] == 'd';
    assert s[33] == 'y';
    assert s[34] == '>';
  }

  lemma NestedBody(s: string)
    requires s == "<html>" + "<body>" + "<div>" + "test!" + "</div>" + "</body>" + "</html>"
    ensures ElementRead(s, 7, ["html"])
            == Ok(Step(Element("body", map[], [Element("div", map[], [Text("test!")])]), 35, ["html"]))
  {
    var div := Element("div", map[], [Text("test!")]);
    BodyName(s);
    BodyClose(s);
    NestedDiv(s);
    var st := ["html"] + ["body"];
    assert st == ["html", "body"] && st[..1] == ["html"];
    ElementThenClose(s, 12, st, div, 28, 34);
    PlainElement(s, 7, 11, ["html"], [div], 34);
  }

  lemma HtmlName(s: string)
    requires s == "<html>" + "<body>" + "<div>" + "test!" + "</div>" + "</body>" + "</html>"
    ensures NameUpTo(s, 1, 5) && s[1..5] == "html" && s[6] == '<' && s[7] == 'b'
  {
    assert s[1] == 'h';
    assert s[2] == 't';
    assert s[3] == 'm';
    assert s[4] == 'l';
    assert s[5] == '>';
    assert s[6] == '<';
    assert s[7] == 'b';
  }

  lemma HtmlClose(s: string)
    requires s == "<html>" + "<body>" + "<div>" + "test!" + "</div>" + "</body>" + "</html>"
    ensures s[35] == '<' && s[36] == '/' && NameUpTo(s, 37, 41) && s[37..41] == "html"
  {
    assert s[35] == '<';
    assert s[36] == '/';
    assert s[37] == 'h';
    assert s[38] == 't';
    assert s[39] == 'm';
    assert s[40] == 'l';
    assert s[41] == '>';
  }

  lemma NestedHtml(s: string)
    requires s == "<html>" + "<body>" + "<div>" + "test!" + "</div>" + "</body>" + "</html>"
    ensures ElementRead(s, 1, [])
            == Ok(Step(Element("html", map[], [Element("body", map[], [Element("div", map[], [Text("test!")])])]), 42, []))
  {
    var body := Element("body", map[], [Element("div", map[], [Text("test!")])]);
    HtmlName(s);
    HtmlClose(s);
    NestedBody(s);
    var st := [] + ["html"];
    assert st[..0] == [];
    ElementThenClose(s, 6, st, body, 35, 41);
    PlainElement(s, 1, 5, [], [body], 41);
  }

  /** A document that is one element from `<` at 0 up to its end. */
  lemma SoleElement(s: string, n: Node)
    requires 0 < |s| && s[0] == '<'
    requires ElementRead(s, 1, []) == Ok(Step(n, |s|, []))
    ensures Parse(s) == Ok(Single(n))
  {
    SkipBlanksAt(s, 0, 0);
    assert [] + [n] == [n];
    assert RootAt(s, 0, [], []) == RootRead(s, |s|, [], [n]);
  }

  /** A document that is one element, after blanks from 0 to its `<` at `p`
      and followed by nothing but blanks, fails: the top-level loop skips the
      trailing blanks to the end and then inspects the character there. */
  lemma TrailingBlanksFail(s: string, p: nat, n: Node, e: nat)
    requires p < |s| && s[p] == '<' && forall k | 0 <= k < p :: IsBlank(s[k])
    requires ElementRead(s, p + 1, []) == Ok(Step(n, e, []))
    requires e < |s| && forall k | e <= k < |s| :: IsBlank(s[k])
    ensures Parse(s) == Err(ReadPastEnd(|s|))
  {
    SkipBlanksAt(s, 0, p);
    SkipBlanksAt(s, e, |s|);
    assert [] + [n] == [n];
    assert RootAt(s, p, [], []) == RootRead(s, e, [], [n]);
  }

  /** `<html><body><div>test!</div></body></html>`, written as the
      concatenation of its tags and its text, is one `html` element holding
      `body`, which holds `div`, which holds the text `test!`. */
  lemma NestedExample()
    ensures Parse("<html>" + "<body>" + "<div>" + "test!" + "</div>" + "</body>" + "</html>")
            == Ok(Single(Element("html", map[], [Element("body", map[], [Element("div", map[], [Text("test!")])])])))
  {
    var s := "<html>" + "<body>" + "<div>" + "test!" + "</div>" + "</body>" + "</html>";
    NestedHtml(s);
    assert s[0] == '<';
    SoleElement(s, Element("html", map[], [Element("body", map[], [Element("div", map[], [Text("test!")])])]));
  }

  /** An attribute `name="value"`: the name from `p` up to `=` at `n`, the
      opening quote at `n + 1` and the value up to the closing quote at `e`,
      both trimmed and the name not empty. */
  predicate QuotedAttribute(s: string, p: nat, n: nat, e: nat) {
    p < n && n + 1 < e < |s| && s[n] == '=' && s[n + 1] == '"'
    && ScanUntil(s, p, {'=', '>'}) == n && ScanUntil(s, n + 2, {'"'}) == e
    && Trimmed(s[p..n]) && Trimmed(s[n + 2..e])
  }

  /** Such an attribute is stored under its name without the quotes, and the
      cursor ends just past the closing quote. */
  lemma QuotedRead(s: string, p: nat, n: nat, e: nat, attrs: map<string, string>)
    requires QuotedAttribute(s, p, n, e)
    ensures AttributeRead(s, p, attrs) == Read(attrs[s[p..n] := s[n + 2..e]], e + 1)
  {
    var name, value := s[p..n], s[n + 2..e];
    TrimOfTrimmed(name);
    TrimOfTrimmed(value);
    assert ValueUntil(s, name, n + 2, {'"'}, attrs) == Read(attrs[name := value], e + 1);
    assert AttributeNamed(s, name, n, attrs) == Read(attrs[name := value], e + 1);
  }

  /** One round of the attribute loop that moves the cursor on goes on with the
      loop after the blanks that follow. */
  lemma AttributeRound(s: string, i: nat, p: nat, attrs: map<string, string>, m: map<string, string>, a: nat, q: nat)
    requires i < |s| && s[i] != '>' && SkipBlanks(s, i) == p
    requires AttributeRead(s, p, attrs) == Read(m, a) && i < a && SkipBlanks(s, a) == q
    ensures AttributesRead(s, i, attrs) == AttributesRead(s, q, m)
  {
  }

  lemma ClassAttribute(s: string)
    requires s == "<div class=\"" + "lightblue test" + "\" id=\"div\" " + "data-index=\"1\">" + "test!</div>"
    ensures QuotedAttribute(s, 5, 10, 26) && s[5..10] == "class" && s[12..26] == "lightblue test"
  {
    assert s[4] == ' ';
    assert s[5] == 'c';
    assert s[6] == 'l';
    assert s[7] == 'a';
    assert s[8] == 's';
    assert s[9] == 's';
    assert s[10] == '=';
    assert s[11] == '"';
    assert ScanUntil(s, 10, {'=', '>'}) == 10;
    assert ScanUntil(s, 9, {'=', '>'}) == 10;
    assert ScanUntil(s, 8, {'=', '>'}) == 10;
    assert ScanUntil(s, 7, {'=', '>'}) == 10;
    assert ScanUntil(s, 6, {'=', '>'}) == 10;
    assert ScanUntil(s, 5, {'=', '>'}) == 10;
    ClassValue(s);
  }

  lemma ClassValue(s: string)
    requires s == "<div class=\"" + "lightblue test" + "\" id=\"div\" " + "data-index=\"1\">" + "test!</div>"
    ensures ScanUntil(s, 12, {'"'}) == 26 && s[12..26] == "lightblue test"
  {
    assert s[12] == 'l';
    assert s[13] == 'i';
    assert s[14] == 'g';
    assert s[15] == 'h';
    assert s[16] == 't';
    assert s[17] == 'b';
    assert s[18] == 'l';
    assert s[19] == 'u';
    assert s[20] == 'e';
    assert s[21] == ' ';
    assert s[22] == 't';
    assert s[23] == 'e';
    assert s[24] == 's';
    assert s[25] == 't';
    assert s[26] == '"';
    assert ScanUntil(s, 26, {'"'}) == 26;
    assert ScanUntil(s, 25, {'"'}) == 26;
    assert ScanUntil(s, 24, {'"'}) == 26;
    assert ScanUntil(s, 23, {'"'}) == 26;
    assert ScanUntil(s, 22, {'"'}) == 26;
    assert ScanUntil(s, 21, {'"'}) == 26;
    assert ScanUntil(s, 20, {'"'}) == 26;
    assert ScanUntil(s, 19, {'"'}) == 26;
    assert ScanUntil(s, 18, {'"'}) == 26;
    assert ScanUntil(s, 17, {'"'}) == 26;
    assert ScanUntil(s, 16, {'"'}) == 26;
    assert ScanUntil(s, 15, {'"'}) == 26;
    assert ScanUntil(s, 14, {'"'}) == 26;
    assert ScanUntil(s, 13, {'"'}) == 26;
    assert ScanUntil(s, 12, {'"'}) == 26;
  }

  lemma IdAttribute(s: string)
    requires s == "<div class=\"" + "lightblue test" + "\" id=\"div\" " + "data-index=\"1\">" + "test!</div>"
    ensures QuotedAttribute(s, 28, 30, 35) && s[28..30] == "id" && s[32..35] == "div"
  {
    assert s[27] == ' ';
    assert s[28] == 'i';
    assert s[29] == 'd';
    assert s[30] == '=';
    assert s[31] == '"';
    assert s[32] == 'd';
    assert s[33] == 'i';
    assert s[34] == 'v';
    assert s[35] == '"';
    assert ScanUntil(s, 30, {'=', '>'}) == 30;
    assert ScanUntil(s, 29, {'=', '>'}) == 30;
    assert ScanUntil(s, 28, {'=', '>'}) == 30;
    assert ScanUntil(s, 35, {'"'}) == 35;
    assert ScanUntil(s, 34, {'"'}) == 35;
    assert ScanUntil(s, 33, {'"'}) == 35;
    assert ScanUntil(s, 32, {'"'}) == 35;
  }

  lemma IndexAttribute(s: string)
    requires s == "<div class=\"" + "lightblue test" + "\" id=\"div\" " + "data-index=\"1\">" + "test!</div>"
    ensures QuotedAttribute(s, 37, 47, 50) && s[37..47] == "data-index" && s[49..50] == "1"
  {
    assert s[36] == ' ';
    assert s[37] == 'd';
    assert s[38] == 'a';
    assert s[39] == 't';
    assert s[40] == 'a';
    assert s[41] == '-';
    assert s[42] == 'i';
    assert s[43] == 'n';
    assert s[44] == 'd';
    assert s[45] == 'e';
    assert s[46] == 'x';
    assert s[47] == '=';
    assert s[48] == '"';
    assert s[49] == '1';
    assert s[50] == '"';
    assert ScanUntil(s, 47, {'=', '>'}) == 47;
    assert ScanUntil(s, 46, {'=', '>'}) == 47;
    assert ScanUntil(s, 45, {'=', '>'}) == 47;
    assert ScanUntil(s, 44, {'=', '>'}) == 47;
    assert ScanUntil(s, 43, {'=', '>'}) == 47;
    assert ScanUntil(s, 42, {'=', '>'}) == 47;
    assert ScanUntil(s, 41, {'=', '>'}) == 47;
    assert ScanUntil(s, 40, {'=', '>'}) == 47;
    assert ScanUntil(s, 39, {'=', '>'}) == 47;
    assert ScanUntil(s, 38, {'=', '>'}) == 47;
    assert ScanUntil(s, 37, {'=', '>'}) == 47;
    assert ScanUntil(s, 50, {'"'}) == 50;
    assert ScanUntil(s, 49, {'"'}) == 50;
  }

  lemma Attributes(s: string)
    requires s == "<div class=\"" + "lightblue test" + "\" id=\"div\" " + "data-index=\"1\">" + "test!</div>"
    ensures AttributesRead(s, 4, map[]) == Ok(Read(map["class" := "lightblue test", "id" := "div", "data-index" := "1"], 52))
  {
    ClassAttribute(s);
    IdAttribute(s);
    IndexAttribute(s);
    assert s[4] == ' ' && s[5] == 'c' && s[27] == ' ' && s[28] == 'i' && s[36] == ' ' && s[37] == 'd' && s[51] == '>';
    SkipBlanksAt(s, 4, 5);
    SkipBlanksAt(s, 27, 28);
    SkipBlanksAt(s, 28, 28);
    SkipBlanksAt(s, 36, 37);
    SkipBlanksAt(s, 37, 37);
    SkipBlanksAt(s, 51, 51);
    ThreeAttributes(s);
  }

  lemma ThreeAttributes(s: string)
    requires QuotedAttribute(s, 5, 10, 26) && s[5..10] == "class" && s[12..26] == "lightblue test"
    requires QuotedAttribute(s, 28, 30, 35) && s[28..30] == "id" && s[32..35] == "div"
    requires QuotedAttribute(s, 37, 47, 50) && s[37..47] == "data-index" && s[49..50] == "1"
    requires |s| > 51 && s[4] == ' ' && s[28] == 'i' && s[37] == 'd' && s[51] == '>'
    requires SkipBlanks(s, 4) == 5 && SkipBlanks(s, 27) == 28 && SkipBlanks(s, 28) == 28
    requires SkipBlanks(s, 36) == 37 && SkipBlanks(s, 37) == 37 && SkipBlanks(s, 51) == 51
    ensures AttributesRead(s, 4, map[]) == Ok(Read(map["class" := "lightblue test", "id" := "div", "data-index" := "1"], 52))
  {
    var m1 := map["class" := "lightblue test"];
    var m2 := m1["id" := "div"];
    var m3 := m2["data-index" := "1"];
    AttributeStep(s, 4, 5, 10, 26, 28, map[]);
    AttributeStep(s, 28, 28, 30, 35, 37, m1);
    AttributeStep(s, 37, 37, 47, 50, 51, m2);
    assert AttributesRead(s, 51, m3) == Ok(Read(m3, 52));
  }

  /** One round of the attribute loop from `i` over the blanks up to such an
      attribute at `p`, going on at `q` after the blanks that follow it. */
  lemma AttributeStep(s: string, i: nat, p: nat, n: nat, e: nat, q: nat, attrs: map<string, string>)
    requires i < |s| && s[i] != '>' && SkipBlanks(s, i) == p
    requires QuotedAttribute(s, p, n, e) && SkipBlanks(s, e + 1) == q
    ensures AttributesRead(s, i, attrs) == AttributesRead(s, q, attrs[s[p..n] := s[n + 2..e]])
  {
    QuotedRead(s, p, n, e, attrs);
    AttributeRound(s, i, p, attrs, attrs[s[p..n] := s[n + 2..e]], e + 1, q);
  }

  lemma AttrTag(s: string)
    requires s == "<div class=\"" + "lightblue test" + "\" id=\"div\" " + "data-index=\"1\">" + "test!</div>"
    ensures TagRead(s, 1) == Read("div", 4)
  {
    assert s[1] == 'd';
    assert s[2] == 'i';
    assert s[3] == 'v';
    assert s[4] == ' ';
    SkipBlanksAt(s, 1, 1);
    ScanUntilAt(s, 1, 4, {' ', '>'});
    assert s[1..4] == "div";
  }

  lemma AttrText(s: string)
    requires s == "<div class=\"" + "lightblue test" + "\" id=\"div\" " + "data-index=\"1\">" + "test!</div>"
    ensures TextRead(s, 52) == Read(Text("test!"), 57)
  {
    assert s[52] == 't';
    assert s[53] == 'e';
    assert s[54] == 's';
    assert s[55] == 't';
    assert s[56] == '!';
    assert s[57] == '<';
    assert s[58] == '/';
    assert TextStop(s, 57) == 57;
    assert TextStop(s, 56) == 57;
    assert TextStop(s, 55) == 57;
    assert TextStop(s, 54) == 57;
    assert TextStop(s, 53) == 57;
    assert TextStop(s, 52) == 57;
    assert s[52..57] == "test!";
    CollapsedTest();
  }

  lemma AttrClose(s: string)
    requires s == "<div class=\"" + "lightblue test" + "\" id=\"div\" " + "data-index=\"1\">" + "test!</div>"
    ensures s[57] == '<' && s[58] == '/' && NameUpTo(s, 59, 62) && s[59..62] == "div"
  {
    assert s[57] == '<';
    assert s[58] == '/';
    assert s[59] == 'd';
    assert s[60] == 'i';
    assert s[61] == 'v';
    assert s[62] == '>';
  }

  lemma CollapsedTest()
    ensures Collapsed("test!") == "test!"
  {
    assert CollapseFrom("!", false) == "!" by { assert CollapseFrom("!", false) == "!" + CollapseFrom("", false); }
    assert CollapseFrom("t!", false) == "t!" by { assert "t!"[1..] == "!"; }
    assert CollapseFrom("st!", false) == "st!" by { assert "st!"[1..] == "t!"; }
    assert CollapseFrom("est!", false) == "est!" by { assert "est!"[1..] == "st!"; }
    assert CollapseFrom("test!", false) == "test!" by { assert "test!"[1..] == "est!"; }
  }

  lemma AttributeFixture(s: string)
    requires s == "<div class=\"" + "lightblue test" + "\" id=\"div\" " + "data-index=\"1\">" + "test!</div>"
    ensures Parse(s) == Ok(Single(Element("div", map["class" := "lightblue test", "id" := "div", "data-index" := "1"], [Text("test!")])))
  {
    var attrs := map["class" := "lightblue test", "id" := "div", "data-index" := "1"];
    assert |s| == 63;
    assert s[0] == '<';
    assert s[52] == 't';
    AttrTag(s);
    Attributes(s);
    AttrText(s);
    AttrClose(s);
    TextThenClose(s, 52, ["div"], "test!", 57, 62);
    assert ["div"][..0] == [];
    assert [] + ["div"] == ["div"];
    ElementReadByChildren(s, 1, []);
    SoleElement(s, Element("div", attrs, [Text("test!")]));
  }

  /** `<div class="lightblue test" id="div" data-index="1">test!</div>`, written
      as the concatenation of five pieces, is one `div` element with exactly
      the three attributes, their values without the quotes, and the text
      `test!`. */
  lemma AttributeExample()
    ensures Parse("<div class=\"" + "lightblue test" + "\" id=\"div\" " + "data-index=\"1\">" + "test!</div>")
            == Ok(Single(Element("div", map["class" := "lightblue test", "id" := "div", "data-index" := "1"], [Text("test!")])))
  {
    AttributeFixture("<div class=\"" + "lightblue test" + "\" id=\"div\" " + "data-index=\"1\">" + "test!</div>");
  }
}
