/** The editor's document value: an ordered list of blocks, each a tree of
    element nodes over text leaves. */
module Document {
  import opened JsText

  datatype Option<T> = None | Some(value: T)

  /** A leaf carries its text and the names of the marks set on it
      ("bold", "italic", ...); an element carries an optional block type
      ("paragraph", "heading", "code", ...), an optional alignment
      ("left", "center", "right", "justify") and its children. */
  datatype Node =
    | Text(text: JsString, marks: set<JsString>)
    | Element(kind: Option<JsString>, align: Option<JsString>, children: seq<Node>)

  /** The string content of a node: the texts of all its leaves, in
      document order, concatenated. This is the meaning of the editing
      framework's `Node.string`. */
  function NodeString(n: Node): JsString
    decreases n
  {
    match n
    case Text(t, _) => t
    case Element(_, _, cs) => ChildrenString(cs)
  }

  function ChildrenString(cs: seq<Node>): JsString
    decreases cs
  {
    if cs == [] then [] else NodeString(cs[0]) + ChildrenString(cs[1..])
  }

  /** The string contents of the blocks of a value, block by block. */
  function BlockStrings(value: seq<Node>): seq<JsString>
  {
    seq(|value|, i requires 0 <= i < |value| => NodeString(value[i]))
  }

  /** The blocks' string contents together are exactly as long as the
      string content of the whole value: `Node.string` of the editor is
      the concatenation of its blocks' contents. */
  lemma {:induction false} BlockStringsTotal(value: seq<Node>)
    ensures SumLengths(BlockStrings(value)) == |ChildrenString(value)|
  {
    if value != [] {
      BlockStringsTotal(value[1..]);
      assert BlockStrings(value)[1..] == BlockStrings(value[1..]);
    }
  }

  /** A block with no type and no alignment holding one unmarked leaf. */
  function Paragraph(text: JsString): (b: Node)
    ensures NodeString(b) == text
  {
    var leaf := Text(text, {});
    assert ChildrenString([leaf]) == text + ChildrenString([]);
    Element(None, None, [leaf])
  }
}
