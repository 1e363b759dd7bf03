/** The plain-text codec and text statistics of the editor (`FlowEditor`
    in index.jsx). */
module FlowEditorJsx {
  import opened JsText
  import opened Document

  // ---------------------------------------------------------------------
  // plain-text codec

  /** `toPlainText`: the string content of each block, joined with line
      breaks between consecutive blocks. */
  function ToPlainText(value: seq<Node>): (text: JsString)
    ensures |value| == 0 ==> text == []
    ensures |value| == 1 ==> text == NodeString(value[0])
  {
    Join(BlockStrings(value), LF)
  }

  /** Consecutive blocks are separated by exactly one line feed. */
  lemma ToPlainTextSeparates(value: seq<Node>)
    requires |value| > 1
    ensures ToPlainText(value) == NodeString(value[0]) + [LF] + ToPlainText(value[1..])
  {
    assert BlockStrings(value)[1..] == BlockStrings(value[1..]);
  }

  /** What `fromPlainText` makes of each line: a block with no type and no
      alignment whose only child is an unmarked leaf holding the line, which
      has no line feed in it. */
  predicate IsLineBlock(b: Node) {
    && b.Element?
    && b.kind == None
    && b.align == None
    && |b.children| == 1
    && b.children[0].Text?
    && b.children[0].marks == {}
    && LF !in b.children[0].text
  }

  /** `fromPlainText`: one block per line-feed-separated piece of `text`. */
  function FromPlainText(text: JsString): (value: seq<Node>)
    ensures |value| == Count(text, LF) + 1
    ensures forall i :: 0 <= i < |value| ==> IsLineBlock(value[i])
    ensures BlockStrings(value) == Split(text, LF)
  {
    var pieces := Split(text, LF);
    SplitPiecesLackSeparator(text, LF);
    seq(|pieces|, i requires 0 <= i < |pieces| => Paragraph(pieces[i]))
  }

  /** The plain text of a non-empty value is as long as the string content
      of the whole value, plus one line feed between each two blocks. */
  lemma ToPlainTextLength(value: seq<Node>)
    requires |value| > 0
    ensures |ToPlainText(value)| == |ChildrenString(value)| + |value| - 1
  {
    JoinLength(BlockStrings(value), LF);
    BlockStringsTotal(value);
  }

  /** When no block's content holds a line feed, the plain text holds
      exactly one line feed per boundary between blocks. */
  lemma ToPlainTextLineFeeds(value: seq<Node>)
    requires |value| > 0
    requires forall i :: 0 <= i < |value| ==> LF !in NodeString(value[i])
    ensures Count(ToPlainText(value), LF) == |value| - 1
  {
    JoinCount(BlockStrings(value), LF);
  }

  /** `fromPlainText` never gives an empty value, not even for "". */
  lemma FromPlainTextNeverEmpty(text: JsString)
    ensures |FromPlainText(text)| >= 1
    ensures text == [] ==> FromPlainText(text) == [Paragraph([])]
  {
    if text == [] {
      var v := FromPlainText(text);
      assert BlockStrings(v)[0] == [];
    }
  }

  /** Decoding then encoding gives back every string. */
  lemma RoundTrip(text: JsString)
    ensures ToPlainText(FromPlainText(text)) == text
  {
    JoinSplit(text, LF);
  }

  /** Encoding then decoding keeps each block's string content, one block
      per block, when no block's content holds a line feed; types,
      alignment and marks are not kept. */
  lemma DecodeEncode(value: seq<Node>)
    requires |value| > 0
    requires forall i :: 0 <= i < |value| ==> LF !in NodeString(value[i])
    ensures FromPlainText(ToPlainText(value)) == seq(|value|, i requires 0 <= i < |value| => Paragraph(NodeString(value[i])))
  {
    var parts := BlockStrings(value);
    SplitJoin(parts, LF);
    var v := FromPlainText(ToPlainText(value));
    assert |v| == |value|;
    forall i | 0 <= i < |v|
      ensures v[i] == Paragraph(NodeString(value[i]))
    {
      assert BlockStrings(v)[i] == parts[i];
    }
  }

  /** The text content survives a full encode, decode, encode cycle. */
  lemma TextStable(value: seq<Node>)
    ensures ToPlainText(FromPlainText(ToPlainText(value))) == ToPlainText(value)
  {
    RoundTrip(ToPlainText(value));
  }

  // ---------------------------------------------------------------------
  // text statistics

  datatype Statistics = Statistics(charsAll: nat, charsNoTrailing: nat, charsNoSpaces: nat, wordsAll: nat)

  /** The units `getStatistics` deletes before counting words: the
      punctuation class of its regular expression and the ASCII digits. */
  predicate IsPunctuation(c: CodeUnit) {
    || c in {
         0x2E, 0x3F, 0x21, 0x2C, 0x3B, 0x3A, 0x2D,  // . ? ! , ; : -
         0x5B, 0x5D, 0x7B, 0x7D, 0x28, 0x29,        // [ ] { } ( )
         0x27, 0x22, 0x23, 0x26, 0x40, 0x3E, 0x3C,  // ' " # & @ > <
         0x2A, 0x25, 0x2F, 0x5C, 0x5E, 0x24, 0x5F,  // * % / \ ^ $ _
         0x60, 0x7E, 0x7C, 0x2B, 0x3D,              // ` ~ | + =
         0x2014, 0x2019, 0x201C, 0x201D             // em dash, right single quote, double quotes
       }
    || (0x30 <= c <= 0x39)
  }

  predicate NonPunctuation(c: CodeUnit) {
    !IsPunctuation(c)
  }

  /** The string whose space-separated pieces `getStatistics` counts as
      words: the text without punctuation and digits, trimmed, line breaks
      turned into spaces and whitespace runs collapsed to one space. */
  function WordText(text: JsString): (words: JsString)
    ensures words == [] || Collapsed(words)
  {
    var noPunctuation := Filter(text, NonPunctuation);
    TrimEnds(noPunctuation);
    CollapsedAfterTrim(Trim(noPunctuation));
    ReplaceSpaceRuns(ReplaceLineBreaks(Trim(noPunctuation), [SPACE]), [SPACE])
  }

  /** `getStatistics`: every count is taken from the plain text of the
      value. Each count is taken after deleting more than the one before it,
      and an empty value counts nothing. */
  function GetStatistics(value: seq<Node>): (st: Statistics)
    ensures st.charsNoSpaces <= st.charsNoTrailing <= st.charsAll
    ensures value == [] ==> st == Statistics(0, 0, 0, 0)
  {
    StatisticsBounds(ToPlainText(value));
    TextStatistics(ToPlainText(value))
  }

  /** The pipeline `getStatistics` runs on the plain text. */
  function TextStatistics(text: JsString): Statistics
  {
    var noBreaks := ReplaceLineBreaks(text, []);
    var noTrailing := Trim(noBreaks);
    var noSpaces := ReplaceSpaceRuns(noTrailing, []);
    var words := WordText(text);
    Statistics(
      |noBreaks|,
      |noTrailing|,
      |noSpaces|,
      if words == [] then 0 else |Split(words, SPACE)|)
  }

  /** Each count is taken after deleting more than the one before it. */
  lemma StatisticsBounds(text: JsString)
    ensures var st := TextStatistics(text);
      st.charsNoSpaces <= st.charsNoTrailing <= st.charsAll
  {
    RemoveSpaceRunsIsFilter(Trim(ReplaceLineBreaks(text, [])));
  }

  /** `charsAll` is the length of the plain text less its CR and LF units. */
  lemma CharsAllCount(text: JsString)
    ensures TextStatistics(text).charsAll == |text| - Count(text, CR) - Count(text, LF)
  {
    RemoveLineBreaksIsFilter(text);
    FilterLineBreaksLength(text);
  }

  /** `charsNoSpaces` is the number of non-whitespace units of the plain text. */
  lemma CharsNoSpacesCount(text: JsString)
    ensures TextStatistics(text).charsNoSpaces == |Filter(text, NonSpace)|
  {
    var noBreaks := ReplaceLineBreaks(text, []);
    RemoveLineBreaksIsFilter(text);
    RemoveSpaceRunsIsFilter(Trim(noBreaks));
    FilterSpacesTrim(noBreaks);
    FilterSpacesAfterLineBreaks(text);
  }

  /** The word string keeps every word of the text left after deleting
      punctuation and digits. */
  lemma WordTextKeepsWords(text: JsString)
    ensures Words(WordText(text)) == Words(Filter(text, NonPunctuation))
  {
    var np := Filter(text, NonPunctuation);
    var t := Trim(np);
    var r := ReplaceLineBreaks(t, [SPACE]);
    WordsTrim(np);
    WordsReplaceLineBreaks(t, true);
    WordsCollapse(r, true);
  }

  /** `wordsAll` is the number of maximal non-whitespace runs in the plain
      text once punctuation and digits are deleted from it. */
  lemma WordsAllCountsWords(text: JsString)
    ensures TextStatistics(text).wordsAll == Words(Filter(text, NonPunctuation))
  {
    var w := WordText(text);
    WordTextKeepsWords(text);
    if w != [] {
      SplitCollapsedCountsWords(w);
    }
  }

  /** `wordsAll` is zero exactly when nothing but whitespace is left once
      punctuation and digits are deleted from the plain text. */
  lemma NoWordsIffBlank(text: JsString)
    ensures var rest := Filter(text, NonPunctuation);
      TextStatistics(text).wordsAll == 0 <==> forall i :: 0 <= i < |rest| ==> IsSpace(rest[i])
  {
    WordsAllCountsWords(text);
    NoWordsIffAllSpace(Filter(text, NonPunctuation));
  }

  /** Words of each block's string content, once punctuation and digits
      are deleted, summed over the blocks. */
  function BlockWords(value: seq<Node>): nat
  {
    if value == [] then 0
    else Words(Filter(NodeString(value[0]), NonPunctuation)) + BlockWords(value[1..])
  }

  /** Deleting every line feed (and maybe more) from the plain text leaves
      what the same deletion leaves of the whole value's string content:
      the separators `toPlainText` adds are gone. */
  lemma {:induction false} FilterPlainText(value: seq<Node>, keep: CodeUnit -> bool)
    requires !keep(LF)
    ensures Filter(ToPlainText(value), keep) == Filter(ChildrenString(value), keep)
  {
    if |value| == 1 {
      assert ChildrenString(value) == NodeString(value[0]) + ChildrenString([]);
      assert NodeString(value[0]) + [] == NodeString(value[0]);
    } else if |value| > 1 {
      var first := NodeString(value[0]);
      var rest := ToPlainText(value[1..]);
      ToPlainTextSeparates(value);
      FilterPlainText(value[1..], keep);
      FilterAppend(first + [LF], rest, keep);
      FilterAppend(first, [LF], keep);
      FilterAppend(first, ChildrenString(value[1..]), keep);
      assert Filter([LF], keep) == [];
      assert Filter(first, keep) + [] == Filter(first, keep);
    }
  }

  /** The line feeds between blocks separate words: the plain text without
      punctuation and digits has as many words as the blocks together. */
  lemma {:induction false} WordsOfPlainText(value: seq<Node>)
    ensures Words(Filter(ToPlainText(value), NonPunctuation)) == BlockWords(value)
  {
    if |value| > 1 {
      var first := Filter(NodeString(value[0]), NonPunctuation);
      var rest := Filter(ToPlainText(value[1..]), NonPunctuation);
      ToPlainTextSeparates(value);
      WordsOfPlainText(value[1..]);
      FilterAppend(NodeString(value[0]) + [LF], ToPlainText(value[1..]), NonPunctuation);
      FilterAppend(NodeString(value[0]), [LF], NonPunctuation);
      assert Filter([LF], NonPunctuation) == [LF];
      WordStartsAppend(first + [LF], rest, true);
      WordStartsAppend(first, [LF], true);
      assert WordStarts([LF], first == [] || IsSpace(first[|first| - 1])) == 0;
    }
  }

  /** All four counts in terms of the value's blocks: the character counts
      are over the string content of the whole value, and the words are
      summed block by block. */
  lemma StatisticsOfValue(value: seq<Node>)
    ensures var content := ChildrenString(value);
      GetStatistics(value) == Statistics(
        |Filter(content, NonLineBreak)|,
        |Trim(Filter(content, NonLineBreak))|,
        |Filter(content, NonSpace)|,
        BlockWords(value))
  {
    StatisticsOfText(ToPlainText(value));
    FilterPlainText(value, NonLineBreak);
    FilterPlainText(value, NonSpace);
    WordsOfPlainText(value);
  }

  /** A word with neither whitespace nor anything `getStatistics` deletes. */
  predicate PlainWord(w: JsString) {
    w != [] && forall i :: 0 <= i < |w| ==> !IsSpace(w[i]) && !IsPunctuation(w[i])
  }

  /** Deleting punctuation from two plain words around one other unit
      leaves them as they are. */
  lemma PlainWordsKeepPunctuationFree(w1: JsString, c: CodeUnit, w2: JsString)
    requires PlainWord(w1) && PlainWord(w2) && !IsPunctuation(c)
    ensures Filter(w1 + [c] + w2, NonPunctuation) == w1 + [c] + w2
  {
    FilterKeepsAll(w1, NonPunctuation);
    FilterKeepsAll(w2, NonPunctuation);
    FilterAppend(w1, [c], NonPunctuation);
    FilterAppend(w1 + [c], w2, NonPunctuation);
    assert Filter([c], NonPunctuation) == [c];
  }

  /** Deleting whitespace from two plain words around a whitespace unit
      `c` deletes `c` alone. */
  lemma PlainWordsNonSpace(w1: JsString, c: CodeUnit, w2: JsString)
    requires PlainWord(w1) && PlainWord(w2) && IsSpace(c)
    ensures Filter(w1 + [c] + w2, NonSpace) == w1 + w2
  {
    FilterKeepsAll(w1, NonSpace);
    FilterKeepsAll(w2, NonSpace);
    FilterAppend(w1, [c], NonSpace);
    FilterAppend(w1 + [c], w2, NonSpace);
    assert Filter([c], NonSpace) == [];
    assert w1 + [] == w1;
  }

  /** All four counts in terms of the plain text. */
  lemma StatisticsOfText(text: JsString)
    ensures TextStatistics(text) == Statistics(
      |Filter(text, NonLineBreak)|,
      |Trim(Filter(text, NonLineBreak))|,
      |Filter(text, NonSpace)|,
      Words(Filter(text, NonPunctuation)))
  {
    RemoveLineBreaksIsFilter(text);
    CharsNoSpacesCount(text);
    WordsAllCountsWords(text);
  }

  /** Two plain words on one line, separated by a space: the space counts
      as a character except in `charsNoSpaces`, and there are two words. */
  lemma TwoWordsOneLine(w1: JsString, w2: JsString)
    requires PlainWord(w1) && PlainWord(w2)
    ensures TextStatistics(w1 + [SPACE] + w2)
         == Statistics(|w1| + |w2| + 1, |w1| + |w2| + 1, |w1| + |w2|, 2)
  {
    var text := w1 + [SPACE] + w2;
    StatisticsOfText(text);
    PlainWordsAroundSpace(w1, w2);
    PlainWordsNonSpace(w1, SPACE, w2);
    PlainWordsKeepPunctuationFree(w1, SPACE, w2);
    TwoWordsApart(w1, SPACE, w2);
  }

  /** Two plain words around a space have no line break and nothing to trim. */
  lemma PlainWordsAroundSpace(w1: JsString, w2: JsString)
    requires PlainWord(w1) && PlainWord(w2)
    ensures var text := w1 + [SPACE] + w2;
      |Filter(text, NonLineBreak)| == |Trim(Filter(text, NonLineBreak))| == |text|
  {
    var text := w1 + [SPACE] + w2;
    FilterKeepsAll(w1, NonLineBreak);
    FilterKeepsAll(w2, NonLineBreak);
    FilterAppend(w1, [SPACE], NonLineBreak);
    FilterAppend(w1 + [SPACE], w2, NonLineBreak);
    assert Filter([SPACE], NonLineBreak) == [SPACE];
    assert text[0] == w1[0];
    assert text[|text| - 1] == w2[|w2| - 1];
    assert Trim(text) == text;
  }

  /** Two plain words in two blocks: the line break between the blocks is
      not counted as a character, yet it separates two words. */
  lemma TwoWordsTwoBlocks(w1: JsString, w2: JsString)
    requires PlainWord(w1) && PlainWord(w2)
    ensures GetStatistics([Paragraph(w1), Paragraph(w2)])
         == Statistics(|w1| + |w2|, |w1| + |w2|, |w1| + |w2|, 2)
  {
    var value := [Paragraph(w1), Paragraph(w2)];
    ToPlainTextSeparates(value);
    assert value[1..] == [Paragraph(w2)];
    assert ToPlainText(value) == w1 + [LF] + w2;
    TwoWordsAroundLineBreak(w1, w2);
  }

  /** Two plain words on two lines: the line feed is no character, and
      there are two words. */
  lemma TwoWordsAroundLineBreak(w1: JsString, w2: JsString)
    requires PlainWord(w1) && PlainWord(w2)
    ensures TextStatistics(w1 + [LF] + w2)
         == Statistics(|w1| + |w2|, |w1| + |w2|, |w1| + |w2|, 2)
  {
    var text := w1 + [LF] + w2;
    StatisticsOfText(text);
    PlainWordsAroundLineBreak(w1, w2);
    PlainWordsNonSpace(w1, LF, w2);
    PlainWordsKeepPunctuationFree(w1, LF, w2);
    TwoWordsApart(w1, LF, w2);
  }

  /** Deleting the line break between two plain words joins them, with
      nothing to trim. */
  lemma PlainWordsAroundLineBreak(w1: JsString, w2: JsString)
    requires PlainWord(w1) && PlainWord(w2)
    ensures var joined := w1 + w2;
      Filter(w1 + [LF] + w2, NonLineBreak) == joined && Trim(joined) == joined
  {
    var joined := w1 + w2;
    FilterKeepsAll(w1, NonLineBreak);
    FilterKeepsAll(w2, NonLineBreak);
    FilterAppend(w1, [LF], NonLineBreak);
    FilterAppend(w1 + [LF], w2, NonLineBreak);
    assert Filter([LF], NonLineBreak) == [];
    assert w1 + [] == w1;
    assert joined[0] == w1[0];
    assert joined[|joined| - 1] == w2[|w2| - 1];
  }

  /** "Hello world": two words and ten units that are not whitespace. */
  lemma HelloWorld()
    ensures GetStatistics([Paragraph([0x48, 0x65, 0x6C, 0x6C, 0x6F, 0x20, 0x77, 0x6F, 0x72, 0x6C, 0x64])])
         == Statistics(11, 11, 10, 2)
  {
    var hello: JsString := [0x48, 0x65, 0x6C, 0x6C, 0x6F];
    var world: JsString := [0x77, 0x6F, 0x72, 0x6C, 0x64];
    assert hello + [SPACE] + world == [0x48, 0x65, 0x6C, 0x6C, 0x6F, 0x20, 0x77, 0x6F, 0x72, 0x6C, 0x64];
    TwoWordsOneLine(hello, world);
  }

  /** Blocks "a" and "b": two characters and two words. */
  lemma BlocksAB()
    ensures GetStatistics([Paragraph([0x61]), Paragraph([0x62])]) == Statistics(2, 2, 2, 2)
  {
    TwoWordsTwoBlocks([0x61], [0x62]);
  }
}
