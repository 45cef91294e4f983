/** What the markup parser of src/HtmlParser.ts guarantees about the trees it
    builds and about its stack of open tag names, proved of the functions in
    `HtmlSpec` (and so of the class `HtmlParsing.HtmlParser`, which computes them). */
module HtmlProperties {
  import opened Scanner
  import opened Whitespace
  import opened Dom
  import opened HtmlSpec

  /** A text node holds no line feed and no two spaces in a row. */
  lemma TextReadWellBuilt(s: string, i: nat)
    ensures WellBuilt(TextRead(s, i).value)
  {
    var j := TextStop(s, i);
    CollapseShape(Consumed(s, i, j), false);
  }

  /** `parseElement` builds a well-built element named by `parseTag`; on success
      the stack is as it was (the name pushed was popped by the matching closing
      tag), or the input ran out with the element still open, so the stack only
      grew, by this element's name first. */
  lemma {:induction false} ElementReadShape(s: string, i: nat, stack: seq<string>)
    requires i <= |s|
    ensures var r := ElementRead(s, i, stack);
            r.Ok? ==> r.value.value.Element? && r.value.value.tagName == TagRead(s, i).value && WellBuilt(r.value.value)
                      && (r.value.stack == stack || (r.value.end > |s| && Extends(r.value.stack, stack + [r.value.value.tagName])))
    decreases Rest(s, i), 3
  {
    var tag := TagRead(s, i);
    TagReadShape(s, i);
    AttributesReadTrimmed(s, tag.end, map[]);
    var a := AttributesRead(s, tag.end, map[]);
    if a.Ok? {
      var st := stack + [tag.value];
      ChildrenReadShape(s, a.value.end, st, []);
      var kids := ChildrenRead(s, a.value.end, st, []);
      if kids.Ok? {
        assert AllWellBuilt(kids.value.value);
        assert st[..|st| - 1] == stack;
      }
    }
  }

  /** The loop over an element's children keeps the nodes read so far as a
      prefix, in input order, adds only well-built nodes, and ends with the
      element's own name popped, unless the input ran out first. */
  lemma {:induction false} ChildrenReadShape(s: string, i: nat, st: seq<string>, acc: seq<Node>)
    requires |st| > 0
    ensures var r := ChildrenRead(s, i, st, acc);
            r.Ok? ==> |acc| <= |r.value.value| && r.value.value[..|acc|] == acc
                      && (AllWellBuilt(acc) ==> AllWellBuilt(r.value.value))
                      && (r.value.stack == st[..|st| - 1] || (r.value.end >= |s| && Extends(r.value.stack, st)))
    decreases Rest(s, i), 2
  {
    if i < |s| {
      ChildAtShape(s, SkipBlanks(s, i), st, acc);
    }
  }

  lemma {:induction false} ChildAtShape(s: string, p: nat, st: seq<string>, acc: seq<Node>)
    requires |st| > 0
    ensures var r := ChildAt(s, p, st, acc);
            r.Ok? ==> |acc| <= |r.value.value| && r.value.value[..|acc|] == acc
                      && (AllWellBuilt(acc) ==> AllWellBuilt(r.value.value))
                      && (r.value.stack == st[..|st| - 1] || (r.value.end >= |s| && Extends(r.value.stack, st)))
    decreases Rest(s, p), 1
  {
    if p < |s| {
      if s[p] == '<' {
        var q := SkipBlanks(s, p + 1);
        if q < |s| && s[q] != '/' {
          ChildElementShape(s, p, st, acc, q);
        }
      } else {
        ChildTextShape(s, p, st, acc);
      }
    }
  }

  lemma {:induction false} ChildElementShape(s: string, p: nat, st: seq<string>, acc: seq<Node>, q: nat)
    requires |st| > 0 && p < |s| && s[p] == '<'
    requires q == SkipBlanks(s, p + 1) && q < |s| && s[q] != '/'
    ensures var r := ChildAt(s, p, st, acc);
            r.Ok? ==> |acc| <= |r.value.value| && r.value.value[..|acc|] == acc
                      && (AllWellBuilt(acc) ==> AllWellBuilt(r.value.value))
                      && (r.value.stack == st[..|st| - 1] || (r.value.end >= |s| && Extends(r.value.stack, st)))
    decreases Rest(s, p), 0
  {
    ChildAtElement(s, p, st, acc, q);
    ElementReadShape(s, q, st);
    var c := ElementRead(s, q, st);
    if c.Ok? {
      var acc' := acc + [c.value.value];
      assert acc'[..|acc|] == acc;
      if c.value.stack == st {
        ChildrenReadShape(s, c.value.end, st, acc');
        var r := ChildrenRead(s, c.value.end, st, acc');
        if r.Ok? {
          assert r.value.value[..|acc|] == r.value.value[..|acc'|][..|acc|];
        }
      } else {
        assert ChildrenRead(s, c.value.end, c.value.stack, acc') == Ok(Step(acc', c.value.end, c.value.stack));
        assert Extends(c.value.stack, st) by {
          assert c.value.stack[..|st|] == (c.value.stack[..|st| + 1])[..|st|];
        }
      }
    }
  }

  lemma {:induction false} ChildTextShape(s: string, p: nat, st: seq<string>, acc: seq<Node>)
    requires |st| > 0 && p < |s| && s[p] != '<'
    ensures var r := ChildAt(s, p, st, acc);
            r.Ok? ==> |acc| <= |r.value.value| && r.value.value[..|acc|] == acc
                      && (AllWellBuilt(acc) ==> AllWellBuilt(r.value.value))
                      && (r.value.stack == st[..|st| - 1] || (r.value.end >= |s| && Extends(r.value.stack, st)))
    decreases Rest(s, p), 0
  {
    ChildAtText(s, p, st, acc);
    var t := TextRead(s, p);
    TextReadWellBuilt(s, p);
    var acc' := acc + [t.value];
    assert acc'[..|acc|] == acc;
    ChildrenReadShape(s, t.end, st, acc');
    var r := ChildrenRead(s, t.end, st, acc');
    if r.Ok? {
      assert r.value.value[..|acc|] == r.value.value[..|acc'|][..|acc|];
    }
  }

  /** The loop of `parse` keeps the top-level nodes read so far as a prefix, in
      input order, and adds only well-built nodes. */
  lemma {:induction false} RootReadShape(s: string, i: nat, st: seq<string>, acc: seq<Node>)
    ensures var r := RootRead(s, i, st, acc);
            r.Ok? ==> |acc| <= |r.value.value| && r.value.value[..|acc|] == acc
                      && (AllWellBuilt(acc) ==> AllWellBuilt(r.value.value))
    decreases Rest(s, i), 1
  {
    if i < |s| {
      RootAtShape(s, SkipBlanks(s, i), st, acc);
    }
  }

  lemma {:induction false} RootAtShape(s: string, p: nat, st: seq<string>, acc: seq<Node>)
    ensures var r := RootAt(s, p, st, acc);
            r.Ok? ==> |acc| <= |r.value.value| && r.value.value[..|acc|] == acc
                      && (AllWellBuilt(acc) ==> AllWellBuilt(r.value.value))
    decreases Rest(s, p), 0
  {
    if p < |s| {
      if s[p] == '<' {
        ElementReadShape(s, p + 1, st);
        var c := ElementRead(s, p + 1, st);
        if c.Ok? {
          var acc' := acc + [c.value.value];
          RootReadShape(s, c.value.end, c.value.stack, acc');
          assert acc'[..|acc|] == acc;
        }
      } else {
        var t := TextRead(s, p);
        TextReadWellBuilt(s, p);
        var acc' := acc + [t.value];
        RootReadShape(s, t.end, st, acc');
        assert acc'[..|acc|] == acc;
      }
    }
  }

  /** Every tree `parse` returns is well built. */
  lemma ParseWellBuilt(s: string)
    ensures Parse(s).Ok? && Parse(s).value.Single? ==> WellBuilt(Parse(s).value.node)
    ensures Parse(s).Ok? && Parse(s).value.Forest? ==> AllWellBuilt(Parse(s).value.nodes)
  {
    RootReadShape(s, 0, [], []);
  }

  /** An attribute whose name is empty or only white space once trimmed adds
      nothing and leaves the cursor at the `=` or `>` that ended the name; any
      other name moves the cursor past that character. */
  lemma AttributeBlankName(s: string, i: nat, attrs: map<string, string>)
    ensures var e := ScanUntil(s, i, {'=', '>'});
            var name := Consumed(s, i, e);
            (forall k | 0 <= k < |name| :: IsTrimmable(name[k])) <==> AttributeRead(s, i, attrs) == Read(attrs, e)
  {
    var e := ScanUntil(s, i, {'=', '>'});
    TrimEmpty(Consumed(s, i, e));
  }

  /** A quoted value is read up to the matching quote (or the end of input), is
      stored trimmed under the trimmed name, replacing any earlier value of that
      name, and every other attribute is kept; the cursor ends past the quote. */
  lemma AttributeQuotedValue(s: string, i: nat, attrs: map<string, string>)
    requires var e := ScanUntil(s, i, {'=', '>'});
             Trim(Consumed(s, i, e)) != "" && e + 1 < |s| && (s[e + 1] == '\'' || s[e + 1] == '"')
    ensures var e := ScanUntil(s, i, {'=', '>'});
            var name := Trim(Consumed(s, i, e));
            var quote := s[e + 1];
            var ve := ScanUntil(s, e + 2, {quote});
            var r := AttributeRead(s, i, attrs);
            quote !in Consumed(s, e + 2, ve) && (ve < |s| ==> s[ve] == quote)
            && r.end == ve + 1
            && r.value.Keys == attrs.Keys + {name}
            && r.value[name] == Trim(Consumed(s, e + 2, ve))
            && (forall k | k in attrs && k != name :: r.value[k] == attrs[k])
  {
    var e := ScanUntil(s, i, {'=', '>'});
    var quote := s[e + 1];
    var ve := ScanUntil(s, e + 2, {quote});
    var name := Trim(Consumed(s, i, e));
    assert AttributeRead(s, i, attrs) == ValueUntil(s, name, e + 2, {quote}, attrs);
    ScanUntilSkips(s, e + 2, {quote});
    if ve <= |s| {
      assert Consumed(s, e + 2, ve) == s[e + 2..ve];
    }
  }

  /** With no opening quote the stop character is the empty string, which no
      character equals, so the value runs to the end of input and the cursor
      ends one past it. */
  lemma AttributeUnquotedValue(s: string, i: nat, attrs: map<string, string>)
    requires var e := ScanUntil(s, i, {'=', '>'});
             Trim(Consumed(s, i, e)) != "" && !(e + 1 < |s| && (s[e + 1] == '\'' || s[e + 1] == '"'))
    ensures var e := ScanUntil(s, i, {'=', '>'});
            var name := Trim(Consumed(s, i, e));
            var r := AttributeRead(s, i, attrs);
            r.end == (if e < |s| then |s| + 1 else |s| + 2)
            && r.value.Keys == attrs.Keys + {name}
            && r.value[name] == Trim(Consumed(s, e + 1, |s|))
            && (forall k | k in attrs && k != name :: r.value[k] == attrs[k])
  {
    var e := ScanUntil(s, i, {'=', '>'});
    if e < |s| {
      ScanUntilAt(s, e + 1, |s|, {});
    }
  }

  /** A closing tag pops the name on top of the stack; the parse fails with an
      error naming both tags exactly when the closing name differs from it, and
      otherwise the iteration ends the loop with the children read so far. */
  lemma ClosingTag(s: string, p: nat, st: seq<string>, acc: seq<Node>)
    requires |st| > 0 && p < |s| && s[p] == '<'
    requires SkipBlanks(s, p + 1) < |s| && s[SkipBlanks(s, p + 1)] == '/'
    ensures var q := SkipBlanks(s, p + 1);
            var endTag := TagRead(s, q + 1).value;
            var r := ChildAt(s, p, st, acc);
            (r.Err? <==> st[|st| - 1] != endTag)
            && (r.Err? ==> r.error == MismatchedTag(st[|st| - 1], endTag))
            && (r.Ok? ==> r.value.value == acc && r.value.stack == st[..|st| - 1]
                          && (r.value.end < |s| ==> s[r.value.end] == '>'))
  {
  }

  /** A closing tag that does not match the open element. */
  lemma MismatchExample()
    ensures Parse("<a></b>") == Err(MismatchedTag("a", "b"))
  {
    var s := "<a></b>";
    SkipBlanksAt(s, 0, 0);
    SkipBlanksAt(s, 1, 1);
    ScanUntilAt(s, 1, 2, {' ', '>'});
    assert s[1..2] == "a";
    assert TagRead(s, 1) == Read("a", 2);
    assert AttributesRead(s, 2, map[]) == Ok(Read(map[], 3));
    SkipBlanksAt(s, 3, 3);
    SkipBlanksAt(s, 4, 4);
    SkipBlanksAt(s, 5, 5);
    ScanUntilAt(s, 5, 6, {' ', '>'});
    assert s[5..6] == "b";
    assert TagRead(s, 5) == Read("b", 6);
    assert ChildAt(s, 3, ["a"], []) == Err(MismatchedTag("a", "b"));
    assert ElementRead(s, 1, []) == Err(MismatchedTag("a", "b"));
  }
}
