/** The class of src/HtmlParser.ts: a cursor over the input and an explicit
    stack of open tag names, advanced step by step by its methods. Each method
    is proved to compute the function of `HtmlSpec` that gives its meaning. */
module HtmlParsing {
  import opened Scanner
  import opened Whitespace
  import opened Dom
  import opened HtmlSpec

  /** `removeExtraSpaces`: copy the text, writing a single space for each run of
      spaces and line feeds. */
  method RemoveExtraSpaces(str: string) returns (result: string)
    ensures result == Collapsed(str)
  {
    var index := 0;
    var len := |str|;
    var hasSpace := false;
    result := "";
    while index < len
      invariant index <= len
      invariant result + CollapseFrom(str[index..], hasSpace) == Collapsed(str)
    {
      CollapseStep(result, str, index, hasSpace);
      if IsBlank(str[index]) {
        if !hasSpace {
          hasSpace := true;
          result := result + " ";
        }
      } else {
        result := result + [str[index]];
        hasSpace := false;
      }
      index := index + 1;
    }
  }

  /** How one iteration of the loop over an element's children ends. */
  datatype Iteration = Failed(error: ParseError) | Closed | Added(node: Node)

  class HtmlParser {
    /** The inherited cursor (`rawText`, `index`). */
    const cursor: Cursor
    /** Names of the elements opened and not yet closed, innermost last. */
    var stack: seq<string>

    constructor ()
      ensures fresh(cursor) && cursor.text == "" && cursor.index == 0 && stack == []
    {
      cursor := new Cursor();
      stack := [];
    }

    /** `parse`: reset the cursor and the stack, then read top-level elements and
        texts until the end of input. */
    method Parse(rawText: string) returns (r: Result<Parsed>)
      modifies this, cursor
      ensures cursor.text == rawText
      ensures r == HtmlSpec.Parse(rawText)
    {
      cursor.text := rawText;
      cursor.index := 0;
      stack := [];
      var children: seq<Node> := [];
      while cursor.index < |rawText|
        invariant cursor.text == rawText
        invariant RootRead(rawText, cursor.index, stack, children) == RootRead(rawText, 0, [], [])
        decreases Rest(rawText, cursor.index)
      {
        var o := ParseTopLevel(children);
        if o.Failed? {
          return Err(o.error);
        }
        children := children + [o.node];
      }
      if |children| == 1 {
        return Ok(Single(children[0]));
      }
      return Ok(Forest(children));
    }

    /** One iteration of the loop of `parse`: skip blanks, then read an element
        after a `<` and otherwise a text node. `children` is what the loop has
        read so far. */
    method ParseTopLevel(ghost children: seq<Node>) returns (o: Iteration)
      requires cursor.index < |cursor.text|
      modifies this, cursor
      ensures cursor.text == old(cursor.text)
      ensures !o.Closed?
      ensures o.Failed? ==> RootRead(cursor.text, old(cursor.index), old(stack), children) == Err(o.error)
      ensures o.Added? ==> old(cursor.index) < cursor.index
                           && RootRead(cursor.text, old(cursor.index), old(stack), children)
                              == RootRead(cursor.text, cursor.index, stack, children + [o.node])
    {
      ghost var s := cursor.text;
      cursor.RemoveSpaces();
      assert RootRead(s, old(cursor.index), stack, children) == RootAt(s, cursor.index, stack, children);
      if cursor.index >= |cursor.text| {
        return Failed(ReadPastEnd(cursor.index));
      }
      if cursor.text[cursor.index] == '<' {
        o := ParseTopElement(children);
        return;
      }
      RootAtText(s, cursor.index, stack, children);
      var t := ParseText();
      return Added(t);
    }

    /** The same iteration once it has found a `<` at the cursor: skip it and
        read an element. */
    method ParseTopElement(ghost children: seq<Node>) returns (o: Iteration)
      requires cursor.index < |cursor.text| && cursor.text[cursor.index] == '<'
      modifies this, cursor
      ensures cursor.text == old(cursor.text)
      ensures !o.Closed?
      ensures o.Failed? ==> RootAt(cursor.text, old(cursor.index), old(stack), children) == Err(o.error)
      ensures o.Added? ==> old(cursor.index) < cursor.index
                           && RootAt(cursor.text, old(cursor.index), old(stack), children)
                              == RootRead(cursor.text, cursor.index, stack, children + [o.node])
    {
      ghost var s := cursor.text;
      ghost var p := cursor.index;
      cursor.index := cursor.index + 1;
      RootAtElement(s, p, stack, children);
      var child := ParseElement();
      if child.Err? {
        return Failed(child.error);
      }
      return Added(child.value);
    }

    /** `parseElement`, with the cursor just after a `<`: the tag name is
        pushed, the attributes read, then the loop over the children runs and
        the cursor steps over the closing `>`. */
    method ParseElement() returns (r: Result<Node>)
      requires cursor.index <= |cursor.text|
      modifies this, cursor
      ensures cursor.text == old(cursor.text)
      ensures ElementRead(cursor.text, old(cursor.index), old(stack))
              == if r.Ok? then Ok(Step(r.value, cursor.index, stack)) else Err(r.error)
      decreases Rest(cursor.text, cursor.index), 3
    {
      ghost var s := cursor.text;
      var tag := ParseTag();
      stack := stack + [tag];
      var attributes := ParseAttributes();
      if attributes.Err? {
        return Err(attributes.error);
      }
      ElementReadByChildren(s, old(cursor.index), old(stack));
      var children := ParseChildren();
      if children.Err? {
        return Err(children.error);
      }
      cursor.index := cursor.index + 1;
      r := Ok(Element(tag, attributes.value, children.value));
    }

    /** The loop of `parseElement` over the children, up to and including the
        closing tag. */
    method ParseChildren() returns (r: Result<seq<Node>>)
      requires |stack| > 0
      modifies this, cursor
      ensures cursor.text == old(cursor.text)
      ensures ChildrenRead(cursor.text, old(cursor.index), old(stack), [])
              == if r.Ok? then Ok(Step(r.value, cursor.index, stack)) else Err(r.error)
      decreases Rest(cursor.text, cursor.index), 2
    {
      ghost var s := cursor.text;
      var children: seq<Node> := [];
      while cursor.index < |cursor.text|
        invariant cursor.text == s
        invariant |stack| > 0
        invariant ChildrenRead(s, cursor.index, stack, children) == ChildrenRead(s, old(cursor.index), old(stack), [])
        decreases Rest(s, cursor.index)
      {
        var o := ParseChild(children);
        if o.Failed? {
          return Err(o.error);
        }
        if o.Closed? {
          return Ok(children);
        }
        children := children + [o.node];
      }
      return Ok(children);
    }

    /** One iteration of that loop: skip blanks, then read markup after a `<`
        and otherwise a text node. `children` is what the loop has read so far. */
    method ParseChild(ghost children: seq<Node>) returns (o: Iteration)
      requires |stack| > 0 && cursor.index < |cursor.text|
      modifies this, cursor
      ensures cursor.text == old(cursor.text)
      ensures o.Failed? ==> ChildrenRead(cursor.text, old(cursor.index), old(stack), children) == Err(o.error)
      ensures o.Closed? ==> ChildrenRead(cursor.text, old(cursor.index), old(stack), children)
                            == Ok(Step(children, cursor.index, stack))
      ensures o.Added? ==> |stack| > 0 && old(cursor.index) < cursor.index
                           && ChildrenRead(cursor.text, old(cursor.index), old(stack), children)
                              == ChildrenRead(cursor.text, cursor.index, stack, children + [o.node])
      decreases Rest(cursor.text, cursor.index), 1
    {
      ghost var s := cursor.text;
      cursor.RemoveSpaces();
      assert ChildrenRead(s, old(cursor.index), stack, children) == ChildAt(s, cursor.index, stack, children);
      if cursor.index >= |cursor.text| {
        return Failed(ReadPastEnd(cursor.index));
      }
      if cursor.text[cursor.index] == '<' {
        o := ParseMarkup(children);
        return;
      }
      ChildAtText(s, cursor.index, stack, children);
      var t := ParseText();
      return Added(t);
    }

    /** The same iteration once it has found a `<` at the cursor: skip it and
        the blanks after it, then read the closing tag after a `/` and
        otherwise a child element. */
    method ParseMarkup(ghost children: seq<Node>) returns (o: Iteration)
      requires |stack| > 0 && cursor.index < |cursor.text| && cursor.text[cursor.index] == '<'
      modifies this, cursor
      ensures cursor.text == old(cursor.text)
      ensures o.Failed? ==> ChildAt(cursor.text, old(cursor.index), old(stack), children) == Err(o.error)
      ensures o.Closed? ==> ChildAt(cursor.text, old(cursor.index), old(stack), children)
                            == Ok(Step(children, cursor.index, stack))
      ensures o.Added? ==> |stack| > 0 && old(cursor.index) < cursor.index
                           && ChildAt(cursor.text, old(cursor.index), old(stack), children)
                              == ChildrenRead(cursor.text, cursor.index, stack, children + [o.node])
      decreases Rest(cursor.text, cursor.index), 0
    {
      ghost var s := cursor.text;
      ghost var p := cursor.index;
      cursor.index := cursor.index + 1;
      cursor.RemoveSpaces();
      if cursor.index >= |cursor.text| {
        return Failed(ReadPastEnd(cursor.index));
      }
      if cursor.text[cursor.index] == '/' {
        cursor.index := cursor.index + 1;
        var closed := ParseClosingTag();
        if closed.Err? {
          return Failed(closed.error);
        }
        return Closed;
      }
      ChildAtElement(s, p, stack, children, cursor.index);
      var child := ParseElement();
      if child.Err? {
        return Failed(child.error);
      }
      return Added(child.value);
    }

    /** The closing tag, with the cursor just after `</`: pop the stack, read the
        tag name and compare the two, then move to the next `>`. */
    method ParseClosingTag() returns (r: Result<nat>)
      requires |stack| > 0
      modifies this, cursor
      ensures cursor.text == old(cursor.text)
      ensures stack == old(stack)[..|old(stack)| - 1]
      ensures CloseRead(cursor.text, old(cursor.index), old(stack)) == if r.Ok? then Ok(cursor.index) else Err(r.error)
    {
      var startTag := stack[|stack| - 1];
      stack := stack[..|stack| - 1];
      var endTag := ParseTag();
      if startTag != endTag {
        return Err(MismatchedTag(startTag, endTag));
      }
      var _ := cursor.ReadUntil({'>'});
      return Ok(cursor.index);
    }

    /** `parseText`: read up to the next tag boundary and return the text node
        that the source appends to the parent. */
    method ParseText() returns (node: Node)
      modifies cursor
      ensures cursor.text == old(cursor.text)
      ensures TextRead(cursor.text, old(cursor.index)) == Read(node, cursor.index)
    {
      ghost var i := cursor.index;
      var str := "";
      while cursor.index < |cursor.text| && !IsTagBoundary(cursor.text, cursor.index)
        invariant cursor.text == old(cursor.text)
        invariant i <= cursor.index
        invariant TextStop(cursor.text, cursor.index) == TextStop(cursor.text, i)
        invariant str == Consumed(cursor.text, i, cursor.index)
        decreases Rest(cursor.text, cursor.index)
      {
        str := str + [cursor.text[cursor.index]];
        cursor.index := cursor.index + 1;
      }
      var value := RemoveExtraSpaces(str);
      node := Text(value);
    }

    /** `parseTag`: skip blanks, then read up to the first space or `>`. */
    method ParseTag() returns (tag: string)
      modifies cursor
      ensures cursor.text == old(cursor.text)
      ensures TagRead(cursor.text, old(cursor.index)) == Read(tag, cursor.index)
    {
      cursor.RemoveSpaces();
      tag := cursor.ReadUntil({' ', '>'});
    }

    /** `parseAttributes`: read attributes until `>`, then step over it. Where the
        source would repeat an iteration that consumed nothing forever, the
        model stops with `NeverTerminates`. */
    method ParseAttributes() returns (r: Result<map<string, string>>)
      modifies cursor
      ensures cursor.text == old(cursor.text)
      ensures AttributesRead(cursor.text, old(cursor.index), map[])
              == if r.Ok? then Ok(Read(r.value, cursor.index)) else Err(r.error)
    {
      var attributes: map<string, string> := map[];
      while cursor.index < |cursor.text| && cursor.text[cursor.index] != '>'
        invariant cursor.text == old(cursor.text)
        invariant AttributesRead(cursor.text, cursor.index, attributes)
                  == AttributesRead(cursor.text, old(cursor.index), map[])
        decreases Rest(cursor.text, cursor.index)
      {
        var i := cursor.index;
        cursor.RemoveSpaces();
        attributes := ParseAttribute(attributes);
        cursor.RemoveSpaces();
        if cursor.index == i {
          return Err(NeverTerminates(i));
        }
      }
      cursor.index := cursor.index + 1;
      return Ok(attributes);
    }

    /** `parseAttribute`: one `name="value"` pair added to `attributes`. The
        source keeps the opening quote in the string `startSymbol` (empty when
        there is none) and reads the value up to a character equal to it; here
        it is the set of characters that end the value, which is empty when no
        quote opened it, since no character equals the empty string. */
    method ParseAttribute(attributes: map<string, string>) returns (updated: map<string, string>)
      modifies cursor
      ensures cursor.text == old(cursor.text)
      ensures AttributeRead(cursor.text, old(cursor.index), attributes) == Read(updated, cursor.index)
    {
      var attribute := cursor.ReadUntil({'=', '>'});
      attribute := Trim(attribute);
      if |attribute| == 0 {
        return attributes;
      }
      cursor.index := cursor.index + 1;
      updated := ParseAttributeValue(attribute, attributes);
    }

    /** The rest of `parseAttribute` once the name is read and the cursor has
        stepped over the character that ended it. */
    method ParseAttributeValue(attribute: string, attributes: map<string, string>) returns (updated: map<string, string>)
      modifies cursor
      ensures cursor.text == old(cursor.text)
      ensures AttributeValue(cursor.text, attribute, old(cursor.index), attributes) == Read(updated, cursor.index)
    {
      var startSymbol: set<char> := {};
      if cursor.index < |cursor.text| && (cursor.text[cursor.index] == '\'' || cursor.text[cursor.index] == '"') {
        startSymbol := {cursor.text[cursor.index]};
        cursor.index := cursor.index + 1;
      }
      var value := cursor.ReadUntil(startSymbol);
      cursor.index := cursor.index + 1;
      updated := attributes[attribute := Trim(value)];
    }
  }
}
