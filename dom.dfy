/** The node tree the markup parser builds. */
module Dom {

  /** `Node = Element | Text`; the constructors play the part of the helpers
      `element(tagName)` and `text(nodeValue)`, and the variant is the
      `nodeType` discriminant. Attribute order is irrelevant, so attributes
      are a map. */
  datatype Node =
    | Element(tagName: string, attributes: map<string, string>, children: seq<Node>)
    | Text(nodeValue: string)
}
