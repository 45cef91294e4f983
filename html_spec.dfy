/** The markup parser of src/HtmlParser.ts as functions: one function per
    method or loop of the class, each taking the input text, the cursor index
    and (where the method touches it) the stack of open tag names, and returning
    what the method returns together with the new cursor and stack. The class
    `HtmlParsing.HtmlParser` is proved to compute exactly these. */
module HtmlSpec {
  import opened Scanner
  import opened Whitespace
  import opened Dom

  /** Why a parse produces no tree. */
  datatype ParseError =
      /** The closing tag `found` does not match `expected`, the name popped off the stack. */
    | MismatchedTag(expected: string, found: string)
      /** `rawText[index].startsWith` on `undefined`: blanks ran to the end of
          input where a character was about to be inspected (a JavaScript TypeError). */
    | ReadPastEnd(at: nat)
      /** `parseAttributes` repeats an iteration that consumes nothing, forever:
          the cursor after skipping blanks is at an `=` with no attribute name. */
    | NeverTerminates(at: nat)

  datatype Result<T> = Ok(value: T) | Err(error: ParseError)

  /** `parse` returns the sole top-level node, or else the list of them. */
  datatype Parsed = Single(node: Node) | Forest(nodes: seq<Node>)

  /** A value read from the input, the cursor after it and the stack of open tag names. */
  datatype Step<T> = Step(value: T, end: nat, stack: seq<string>)

  /** `b` is a prefix of `a`. */
  predicate Extends(a: seq<string>, b: seq<string>) {
    |a| >= |b| && a[..|b|] == b
  }

  /** Keys and values as `trim` leaves them, and no empty key. */
  predicate TrimmedAttributes(m: map<string, string>) {
    forall k | k in m :: k != "" && Trimmed(k) && Trimmed(m[k])
  }

  /** What every tree the parser builds satisfies: no tag name holds a space or
      a `>`, every attribute name and value is trimmed and names are non-empty,
      and no text holds a line feed or two spaces in a row. */
  predicate WellBuilt(n: Node) {
    match n
    case Text(v) => '\n' !in v && NoDoubleSpace(v)
    case Element(t, a, kids) =>
      ' ' !in t && '>' !in t && TrimmedAttributes(a)
      && forall k | 0 <= k < |kids| :: WellBuilt(kids[k])
  }

  predicate AllWellBuilt(ns: seq<Node>) {
    forall k | 0 <= k < |ns| :: WellBuilt(ns[k])
  }

  /** `parseTag` with the cursor at `i`: skip blanks, then read up to the first
      space or `>`. */
  function TagRead(s: string, i: nat): (r: Read<string>)
    ensures i <= r.end
    ensures i <= |s| ==> r.end <= |s|
  {
    var p := SkipBlanks(s, i);
    var e := ScanUntil(s, p, {' ', '>'});
    Read(Consumed(s, p, e), e)
  }

  /** The tag name is the text after the blanks up to the first space or `>`
      (or the end of input), so it holds neither character. */
  lemma TagReadShape(s: string, i: nat)
    ensures var r := TagRead(s, i);
            ' ' !in r.value && '>' !in r.value
            && r.value == Consumed(s, SkipBlanks(s, i), r.end)
            && (r.end < |s| ==> s[r.end] == ' ' || s[r.end] == '>')
  {
    ScanUntilSkips(s, SkipBlanks(s, i), {' ', '>'});
  }

  /** The condition that ends the loop of `parseText`: a `<` followed by a word
      character or `/`. Past the end, `rawText[index + 1]` is `undefined`, which
      `/\w|\//` accepts (it tests the string "undefined"), so a `<` in the last
      position is a boundary too. */
  predicate IsTagBoundary(s: string, i: nat)
    requires i < |s|
  {
    s[i] == '<' && (i + 1 == |s| || IsWordChar(s[i + 1]) || s[i + 1] == '/')
  }

  /** Where the loop of `parseText` stops: the first tag boundary at or after `i`. */
  function TextStop(s: string, i: nat): (j: nat)
    decreases Rest(s, i)
    ensures i <= j
    ensures i >= |s| ==> j == i
    ensures i < |s| ==> j <= |s|
    ensures j < |s| ==> IsTagBoundary(s, j)
  {
    if i < |s| && !IsTagBoundary(s, i) then TextStop(s, i + 1) else i
  }

  /** No position before the stop is a tag boundary. */
  lemma {:induction false} TextStopSkips(s: string, i: nat)
    ensures forall k | i <= k < TextStop(s, i) :: k < |s| && !IsTagBoundary(s, k)
    decreases Rest(s, i)
  {
    if i < |s| && !IsTagBoundary(s, i) {
      TextStopSkips(s, i + 1);
    }
  }

  /** `parseText`: the text node for the characters up to the next tag boundary,
      with blank runs collapsed. */
  function TextRead(s: string, i: nat): (r: Read<Node>)
    ensures r.value.Text?
    ensures i < |s| && s[i] != '<' ==> i < r.end <= |s|
    ensures i <= r.end
  {
    var j := TextStop(s, i);
    Read(Text(Collapsed(Consumed(s, i, j))), j)
  }

  /** `parseAttribute` with the cursor at `i`, adding to `attrs`: read a name up to
      `=` or `>` and trim it; an empty name adds nothing and consumes no more.
      Otherwise skip one character, take an opening `'` or `"` if there is one,
      and read the value up to the matching quote, or with no quote (the scan
      then compares against the empty string, which no character equals) up to
      the end of input; store the trimmed value under the name, replacing an
      earlier one. */
  function AttributeRead(s: string, i: nat, attrs: map<string, string>): (r: Read<map<string, string>>)
    ensures i <= r.end
    ensures r.end == i ==> r.value == attrs
    ensures attrs.Keys <= r.value.Keys
  {
    var e := ScanUntil(s, i, {'=', '>'});
    AttributeNamed(s, Trim(Consumed(s, i, e)), e, attrs)
  }

  /** The rest of `parseAttribute` once the trimmed `name` is read and the
      cursor is at `e`. */
  function AttributeNamed(s: string, name: string, e: nat, attrs: map<string, string>): (r: Read<map<string, string>>)
    ensures e <= r.end
    ensures r.end == e ==> r.value == attrs
    ensures attrs.Keys <= r.value.Keys
  {
    if |name| == 0 then Read(attrs, e) else AttributeValue(s, name, e + 1, attrs)
  }

  /** The value of attribute `name`, with the cursor one past the end of the
      name: an opening quote there is skipped and chooses the stop character. */
  function AttributeValue(s: string, name: string, k: nat, attrs: map<string, string>): (r: Read<map<string, string>>)
    ensures k < r.end
    ensures r.value.Keys == attrs.Keys + {name}
  {
    var quoted := k < |s| && (s[k] == '\'' || s[k] == '"');
    if quoted then ValueUntil(s, name, k + 1, {s[k]}, attrs) else ValueUntil(s, name, k, {}, attrs)
  }

  /** The value read from `v` up to one of `stops`, trimmed and stored under
      `name`; the cursor steps over the stop. */
  function ValueUntil(s: string, name: string, v: nat, stops: set<char>, attrs: map<string, string>): (r: Read<map<string, string>>)
    ensures v < r.end
    ensures r.value.Keys == attrs.Keys + {name}
  {
    var ve := ScanUntil(s, v, stops);
    Read(attrs[name := Trim(Consumed(s, v, ve))], ve + 1)
  }

  /** The loop of `parseAttributes` from `i`, then the step over the `>`. */
  function AttributesRead(s: string, i: nat, attrs: map<string, string>): (r: Result<Read<map<string, string>>>)
    decreases Rest(s, i)
    ensures r.Ok? ==> i < r.value.end
  {
    if i < |s| && s[i] != '>' then
      var p := SkipBlanks(s, i);
      var a := AttributeRead(s, p, attrs);
      var q := SkipBlanks(s, a.end);
      if q == i then Err(NeverTerminates(i))
      else AttributesRead(s, q, a.value)
    else Ok(Read(attrs, i + 1))
  }

  /** A name or value stored by `parseAttribute` is trimmed and the name is not
      empty, so trimmed attributes stay trimmed. */
  lemma AttributeReadTrimmed(s: string, i: nat, attrs: map<string, string>)
    requires TrimmedAttributes(attrs)
    ensures TrimmedAttributes(AttributeRead(s, i, attrs).value)
  {
    var e := ScanUntil(s, i, {'=', '>'});
    var name := Trim(Consumed(s, i, e));
    TrimShape(Consumed(s, i, e));
    if |name| != 0 {
      AttributeValueTrimmed(s, name, e + 1, attrs);
    }
  }

  lemma AttributeValueTrimmed(s: string, name: string, k: nat, attrs: map<string, string>)
    requires TrimmedAttributes(attrs) && name != "" && Trimmed(name)
    ensures TrimmedAttributes(AttributeValue(s, name, k, attrs).value)
  {
    if k < |s| && (s[k] == '\'' || s[k] == '"') {
      ValueUntilTrimmed(s, name, k + 1, {s[k]}, attrs);
    } else {
      ValueUntilTrimmed(s, name, k, {}, attrs);
    }
  }

  lemma ValueUntilTrimmed(s: string, name: string, v: nat, stops: set<char>, attrs: map<string, string>)
    requires TrimmedAttributes(attrs) && name != "" && Trimmed(name)
    ensures TrimmedAttributes(ValueUntil(s, name, v, stops, attrs).value)
  {
    TrimShape(Consumed(s, v, ScanUntil(s, v, stops)));
  }

  lemma {:induction false} AttributesReadTrimmed(s: string, i: nat, attrs: map<string, string>)
    requires TrimmedAttributes(attrs)
    ensures var r := AttributesRead(s, i, attrs); r.Ok? ==> TrimmedAttributes(r.value.value)
    decreases Rest(s, i)
  {
    if i < |s| && s[i] != '>' {
      var p := SkipBlanks(s, i);
      AttributeReadTrimmed(s, p, attrs);
      var a := AttributeRead(s, p, attrs);
      var q := SkipBlanks(s, a.end);
      if q != i {
        AttributesReadTrimmed(s, q, a.value);
      }
    }
  }

  /** The closing tag, with the cursor just after `</`: the name popped off the
      stack must equal the tag name read here; then the cursor moves to the
      next `>` (or the end of input). */
  function CloseRead(s: string, i: nat, st: seq<string>): (r: Result<nat>)
    requires |st| > 0
    ensures r.Ok? ==> i <= r.value
  {
    var startTag := st[|st| - 1];
    var endTag := TagRead(s, i);
    if startTag != endTag.value then Err(MismatchedTag(startTag, endTag.value))
    else Ok(ScanUntil(s, endTag.end, {'>'}))
  }

  /** `parseElement` with the cursor just after a `<`: read the tag name, push
      it, read the attributes, then the children up to the matching closing tag,
      and step over the closing `>`. */
  function ElementRead(s: string, i: nat, stack: seq<string>): (r: Result<Step<Node>>)
    requires i <= |s|
    decreases Rest(s, i), 3
    ensures r.Ok? ==> i < r.value.end && |stack| <= |r.value.stack|
  {
    var tag := TagRead(s, i);
    var st := stack + [tag.value];
    match AttributesRead(s, tag.end, map[])
    case Err(e) => Err(e)
    case Ok(attrs) =>
      match ChildrenRead(s, attrs.end, st, [])
      case Err(e) => Err(e)
      case Ok(kids) => Ok(Step(Element(tag.value, attrs.value, kids.value), kids.end + 1, kids.stack))
  }

  /** The loop of `parseElement` over the children from `i`, with the nodes read
      so far in `acc`: it ends at the end of input, and otherwise skips blanks
      and takes one iteration. */
  function ChildrenRead(s: string, i: nat, st: seq<string>, acc: seq<Node>): (r: Result<Step<seq<Node>>>)
    requires |st| > 0
    decreases Rest(s, i), 2
    ensures r.Ok? ==> i <= r.value.end && |st| - 1 <= |r.value.stack|
  {
    if i >= |s| then Ok(Step(acc, i, st))
    else ChildAt(s, SkipBlanks(s, i), st, acc)
  }

  /** One iteration of that loop with the cursor at `p`, after the blanks: on
      `</` it pops the stack, compares the popped name with the closing tag and
      ends the loop after skipping to the next `>`; on any other `<` it reads a
      child element, and otherwise a text node, and goes on with the loop. */
  function ChildAt(s: string, p: nat, st: seq<string>, acc: seq<Node>): (r: Result<Step<seq<Node>>>)
    requires |st| > 0
    decreases Rest(s, p), 1
    ensures r.Ok? ==> p <= r.value.end && |st| - 1 <= |r.value.stack|
  {
    if p >= |s| then Err(ReadPastEnd(p))
    else if s[p] == '<' then
      var q := SkipBlanks(s, p + 1);
      if q >= |s| then Err(ReadPastEnd(q))
      else if s[q] == '/' then
        match CloseRead(s, q + 1, st)
        case Err(e) => Err(e)
        case Ok(end) => Ok(Step(acc, end, st[..|st| - 1]))
      else
        match ElementRead(s, q, st)
        case Err(e) => Err(e)
        case Ok(child) => ChildrenRead(s, child.end, child.stack, acc + [child.value])
    else
      var t := TextRead(s, p);
      ChildrenRead(s, t.end, st, acc + [t.value])
  }

  /** The loop of `parse` over the top-level nodes from `i`. */
  function RootRead(s: string, i: nat, st: seq<string>, acc: seq<Node>): (r: Result<Step<seq<Node>>>)
    decreases Rest(s, i), 1
  {
    if i >= |s| then Ok(Step(acc, i, st))
    else RootAt(s, SkipBlanks(s, i), st, acc)
  }

  /** One iteration of that loop with the cursor at `p`, after the blanks: an
      element after a `<`, and otherwise a text node. */
  function RootAt(s: string, p: nat, st: seq<string>, acc: seq<Node>): (r: Result<Step<seq<Node>>>)
    decreases Rest(s, p), 0
  {
    if p >= |s| then Err(ReadPastEnd(p))
    else if s[p] == '<' then
      match ElementRead(s, p + 1, st)
      case Err(e) => Err(e)
      case Ok(child) => RootRead(s, child.end, child.stack, acc + [child.value])
    else
      var t := TextRead(s, p);
      RootRead(s, t.end, st, acc + [t.value])
  }

  /** `parse`: start at index 0 with an empty stack; return the sole top-level
      node when there is exactly one, else all of them in input order. */
  function Parse(s: string): (r: Result<Parsed>)
    ensures r.Err? <==> RootRead(s, 0, [], []).Err?
    ensures r.Err? ==> r.error == RootRead(s, 0, [], []).error
    ensures r.Ok? ==> (r.value.Single? <==> |RootRead(s, 0, [], []).value.value| == 1)
    ensures r.Ok? && r.value.Single? ==> [r.value.node] == RootRead(s, 0, [], []).value.value
    ensures r.Ok? && r.value.Forest? ==> r.value.nodes == RootRead(s, 0, [], []).value.value
  {
    match RootRead(s, 0, [], [])
    case Err(e) => Err(e)
    case Ok(top) => Ok(if |top.value| == 1 then Single(top.value[0]) else Forest(top.value))
  }

  /** `ElementRead` once the tag and the attributes have been read. */
  lemma ElementReadByChildren(s: string, i: nat, stack: seq<string>)
    requires i <= |s|
    requires AttributesRead(s, TagRead(s, i).end, map[]).Ok?
    ensures var tag := TagRead(s, i);
            var attrs := AttributesRead(s, tag.end, map[]).value;
            var kids := ChildrenRead(s, attrs.end, stack + [tag.value], []);
            ElementRead(s, i, stack)
            == if kids.Err? then Err(kids.error)
               else Ok(Step(Element(tag.value, attrs.value, kids.value.value), kids.value.end + 1, kids.value.stack))
  {
  }

  /** One iteration that reads a child element. */
  lemma ChildAtElement(s: string, p: nat, st: seq<string>, acc: seq<Node>, q: nat)
    requires |st| > 0 && p < |s| && s[p] == '<'
    requires q == SkipBlanks(s, p + 1) && q < |s| && s[q] != '/'
    ensures var c := ElementRead(s, q, st);
            ChildAt(s, p, st, acc)
            == if c.Err? then Err(c.error) else ChildrenRead(s, c.value.end, c.value.stack, acc + [c.value.value])
  {
  }

  /** One iteration that reads a text node. */
  lemma ChildAtText(s: string, p: nat, st: seq<string>, acc: seq<Node>)
    requires |st| > 0 && p < |s| && s[p] != '<'
    ensures ChildAt(s, p, st, acc) == ChildrenRead(s, TextRead(s, p).end, st, acc + [TextRead(s, p).value])
  {
  }

  /** One top-level iteration that reads an element. */
  lemma RootAtElement(s: string, p: nat, st: seq<string>, acc: seq<Node>)
    requires p < |s| && s[p] == '<'
    ensures var c := ElementRead(s, p + 1, st);
            RootAt(s, p, st, acc)
            == if c.Err? then Err(c.error) else RootRead(s, c.value.end, c.value.stack, acc + [c.value.value])
  {
  }

  /** One top-level iteration that reads a text node. */
  lemma RootAtText(s: string, p: nat, st: seq<string>, acc: seq<Node>)
    requires p < |s| && s[p] != '<'
    ensures RootAt(s, p, st, acc) == RootRead(s, TextRead(s, p).end, st, acc + [TextRead(s, p).value])
  {
  }
}
