/** The style resolver of src/style.ts: for each node of the tree the markup
    parser builds, the values it inherits from its parent, the declarations of
    the matching rules of the style sheet folded over them in order, and its
    inline `styles` on top. Everything here works on values: no node, rule or
    map given to it is changed, as in the source, which spreads into fresh
    objects. */
module Cascade {
  import opened Scanner
  import opened Dom
  import opened CssSpec

  /** A style object: property names to values. */
  type Values = map<string, string>

  datatype Option<T> = None | Some(value: T)

  /** `StyleNode`: the node, its computed values and the style nodes of its
      children. */
  datatype StyleNode = StyleNode(node: Node, values: Values, children: seq<StyleNode>)

  /** `inheritableAttributes`. */
  const Inheritable: set<string> := {"color", "font-size"}

  /** `getInheritableAttributeValue`: nothing without a parent; otherwise the
      parent's entries whose name is inheritable. */
  function InheritedBase(parent: Option<Values>): (r: Values)
    ensures parent.None? ==> r == map[]
    ensures parent.Some? ==> forall k :: k in r <==> k in parent.value && (k == "color" || k == "font-size")
    ensures forall k | k in r :: parent.Some? && r[k] == parent.value[k]
  {
    match parent
    case None => map[]
    case Some(values) => map k | k in values && k in Inheritable :: values[k]
  }

  /** The `reduce` of `getInheritableAttributeValue` over `keys`, the names
      `Object.keys` lists for the parent's values, in that order: each
      inheritable name writes the parent's value into the result. */
  function InheritFold(keys: seq<string>, values: Values): Values
    requires forall i | 0 <= i < |keys| :: keys[i] in values
  {
    if |keys| == 0 then map[]
    else
      var key := keys[|keys| - 1];
      var result := InheritFold(keys[..|keys| - 1], values);
      if key in Inheritable then result[key := values[key]] else result
  }

  /** `cssValueArrayToObject`: each declaration in turn writes its value under
      its name. */
  function DeclMap(decls: seq<Declaration>): (m: Values)
  {
    if |decls| == 0 then map[]
    else DeclMap(decls[..|decls| - 1])[decls[|decls| - 1].name := decls[|decls| - 1].value]
  }

  /** `split(' ').filter(Boolean)`: the non-empty pieces between spaces. */
  function Tokens(s: string): seq<string> {
    NonEmpty(Split(s, ' '))
  }

  function NonEmpty(parts: seq<string>): seq<string> {
    if |parts| == 0 then []
    else if parts[0] == "" then NonEmpty(parts[1..])
    else [parts[0]] + NonEmpty(parts[1..])
  }

  /** Some name of `classes` is also in `classes2`. */
  predicate Overlap(classes: seq<string>, classes2: seq<string>) {
    exists i | 0 <= i < |classes| :: classes[i] in classes2
  }

  /** The loop over the element's class names inside `isMatch`. */
  method SharesClass(classes: seq<string>, classes2: seq<string>) returns (found: bool)
    ensures found == Overlap(classes, classes2)
  {
    for i := 0 to |classes|
      invariant forall j | 0 <= j < i :: classes[j] !in classes2
    {
      if classes[i] in classes2 {
        return true;
      }
    }
    return false;
  }

  /** The test `isMatch` applies to one selector of a rule: a universal tag, the
      element's tag, the element's `id`, or a shared class name. */
  predicate SelectorMatches(tagName: string, attributes: map<string, string>, sel: Selector) {
    (sel.tagName != "" && sel.tagName == "*")
    || (sel.tagName != "" && sel.tagName == tagName)
    || (sel.id != "" && "id" in attributes && sel.id == attributes["id"])
    || ("class" in attributes && attributes["class"] != ""
        && Overlap(Tokens(attributes["class"]), Tokens(sel.className)))
  }

  /** `isMatch`: `some` over the selectors of a rule. */
  predicate IsMatch(tagName: string, attributes: map<string, string>, selectors: seq<Selector>) {
    |selectors| > 0
    && (SelectorMatches(tagName, attributes, selectors[0]) || IsMatch(tagName, attributes, selectors[1..]))
  }

  /** The rule `rule` applies to the element. */
  predicate Applies(tagName: string, attributes: map<string, string>, rule: Rule) {
    IsMatch(tagName, attributes, rule.selectors)
  }

  /** The `reduce` of `getStyleValues`: each rule in order that matches spreads
      its declarations over the values so far. */
  function ApplyRules(tagName: string, attributes: map<string, string>, rules: seq<Rule>, acc: Values): Values
    decreases |rules|
  {
    if |rules| == 0 then acc
    else
      var next := if Applies(tagName, attributes, rules[0]) then acc + DeclMap(rules[0].declarations) else acc;
      ApplyRules(tagName, attributes, rules[1..], next)
  }

  /** `getStyleValues`: a text node gets the inherited values; an element gets
      the matching rules applied over them. */
  function StyleValues(n: Node, rules: seq<Rule>, parent: Option<Values>): Values {
    var base := InheritedBase(parent);
    if n.Text? then base else ApplyRules(n.tagName, n.attributes, rules, base)
  }

  /** `getInlineStyle`: nothing for blank text; otherwise the `;`-separated
      items, each kept only when it has exactly one `:`, as a trimmed name and
      value. The source's test of an empty array after `split` never holds. */
  function InlineStyle(str: string): Values {
    var t := Trim(str);
    if |t| == 0 then map[] else InlineItems(Split(t, ';'))
  }

  /** The `reduce` of `getInlineStyle` over the items. */
  function InlineItems(items: seq<string>): Values {
    if |items| == 0 then map[]
    else
      var m := InlineItems(items[..|items| - 1]);
      var data := Split(items[|items| - 1], ':');
      if |data| == 2 then m[Trim(data[0]) := Trim(data[1])] else m
  }

  /** The `styles` attribute, when it is present and not empty. */
  predicate HasStyles(attributes: map<string, string>) {
    "styles" in attributes && attributes["styles"] != ""
  }

  /** `getStyleNode`: the node's values (with its inline styles on top, for an
      element), and the style nodes of its children, each computed with this
      style node, already holding the inline styles, as its parent. */
  function StyleNodeOf(n: Node, rules: seq<Rule>, parent: Option<Values>): StyleNode
    decreases n, 1
  {
    var values := StyleValues(n, rules, parent);
    if n.Text? then StyleNode(n, values, [])
    else
      var own := if HasStyles(n.attributes) then values + InlineStyle(n.attributes["styles"]) else values;
      StyleNode(n, own, StyleForest(n.children, rules, Some(own)))
  }

  /** `getStyleNode` for each node of a list, with the same parent: the
      children's `map` in `getStyleNode`, and what `getStyleTree` evidently
      means to compute. */
  function StyleForest(nodes: seq<Node>, rules: seq<Rule>, parent: Option<Values>): seq<StyleNode>
    decreases nodes, 0
  {
    if |nodes| == 0 then []
    else [StyleNodeOf(nodes[0], rules, parent)] + StyleForest(nodes[1..], rules, parent)
  }

  /** What `getStyleTree` is called with: one node or a list of them. */
  datatype TreeInput = One(node: Node) | Many(nodes: seq<Node>)

  /** Whether `getStyleTree` as written returns within `fuel` nested calls of
      itself. It wraps a single node in a list and then maps every node of the
      list to a call of itself on that node alone, so the branch that would
      call `getStyleNode` is never reached. The rules and the parent play no
      part in whether it returns and are left out. */
  function TreeReturns(input: TreeInput, fuel: nat): bool
    decreases fuel, 0
  {
    fuel > 0 && MapReturns(if input.One? then [input.node] else input.nodes, fuel - 1)
  }

  /** Whether that `map` returns: every call on one of `elements` does. */
  function MapReturns(elements: seq<Node>, fuel: nat): bool
    decreases fuel, |elements|
  {
    |elements| == 0 || (TreeReturns(One(elements[0]), fuel) && MapReturns(elements[1..], fuel))
  }
}
