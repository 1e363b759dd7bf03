/** The plain-text codec of the editor as index.js writes it
    (`serializePlainText` and `deserializePlainText`). */
module FlowEditorJs {
  import opened JsText
  import opened Document
  import FlowEditorJsx

  /** `serializePlainText`: the string content of each block, joined with
      line breaks between consecutive blocks. */
  function SerializePlainText(value: seq<Node>): (text: JsString)
    ensures |value| == 0 ==> text == []
    ensures |value| == 1 ==> text == NodeString(value[0])
  {
    Join(BlockStrings(value), LF)
  }

  /** `deserializePlainText`: one block per line-feed-separated piece. */
  function DeserializePlainText(text: JsString): (value: seq<Node>)
    ensures |value| == Count(text, LF) + 1
  {
    var pieces := Split(text, LF);
    seq(|pieces|, i requires 0 <= i < |pieces| => Paragraph(pieces[i]))
  }

  /** The i-th block holds one unmarked leaf with no type or alignment
      above it, and its text is the i-th piece between line feeds. */
  lemma DeserializedBlocks(text: JsString)
    ensures var value := DeserializePlainText(text);
      forall i :: 0 <= i < |value| ==>
        FlowEditorJsx.IsLineBlock(value[i]) && value[i].children[0].text == Split(text, LF)[i]
  {
    SplitPiecesLackSeparator(text, LF);
  }

  /** The two files' codecs agree on every input. */
  lemma AgreesWithIndexJsx(value: seq<Node>, text: JsString)
    ensures SerializePlainText(value) == FlowEditorJsx.ToPlainText(value)
    ensures DeserializePlainText(text) == FlowEditorJsx.FromPlainText(text)
  {
  }

  /** Deserializing then serializing gives back every string. */
  lemma SerializeDeserialize(text: JsString)
    ensures SerializePlainText(DeserializePlainText(text)) == text
  {
    var value := DeserializePlainText(text);
    assert BlockStrings(value) == Split(text, LF);
    JoinSplit(text, LF);
  }

  /** The text content survives a full serialize, deserialize, serialize
      cycle, although types, alignment and marks do not. */
  lemma SerializeStable(value: seq<Node>)
    ensures SerializePlainText(DeserializePlainText(SerializePlainText(value))) == SerializePlainText(value)
  {
    SerializeDeserialize(SerializePlainText(value));
  }

  /** Serializing no blocks gives "", and deserializing "" gives one
      block with an empty leaf, not an empty value. */
  lemma EmptyValue()
    ensures SerializePlainText([]) == []
    ensures DeserializePlainText([]) == [Paragraph([])]
  {
    assert Split([], LF) == [[]];
  }
}
