# Flow editor: plain-text codec and text statistics

Flow is a browser rich-text editor. Its `FlowEditor` object carries three
pieces of logic of its own, and this project models them:

- `toPlainText` / `serializePlainText`: the document value (a list of blocks)
  becomes a string. It takes each block's string content and joins them with
  `"\n"`.
- `fromPlainText` / `deserializePlainText`: a string becomes a value with one
  block per `"\n"`-separated line.
- `getStatistics`: four counts over the plain text, namely `charsAll`,
  `charsNoTrailing`, `charsNoSpaces` and `wordsAll`.

Both files, index.jsx and index.js, define the codec. Only index.jsx defines
the statistics.

The model is written in the source's own terms:

- **Strings.** A JavaScript string is a sequence of UTF-16 code units
  (`JsText.CodeUnit`). `length`, `trim`, `split` and regular expressions
  without the `u` flag all work unit by unit.
- **Whitespace.** `\s` and the set `trim` strips are the same, and are given
  by the WhiteSpace and LineTerminator tables of ECMA-262.
- **Replacements.** The regular-expression replacements the source uses are
  written out as recursive functions:
  - `/(\r\n|\n|\r)/gm` treats CR LF as one match.
  - `/\s+/g` replaces each maximal whitespace run.
- **Node.string.** The editing framework's `Node.string` is the
  concatenation of a node's leaf texts in document order
  (`Document.NodeString`).

Module layout:

- `JsText` (js_text.dfy): strings and the built-in string operations.
- `Document` (document.dfy): the value tree.
- `FlowEditorJsx` (flow_editor_jsx.dfy): `FlowEditor` of index.jsx.
- `FlowEditorJs` (flow_editor_js.dfy): `FlowEditor` of index.js.

The main results:

- Decoding then encoding returns every string.
- Encoding then decoding keeps each block's string content, provided the
  value is not empty and no block holds a line feed.
- `charsAll` is the number of units that are not CR or LF.
- `charsNoSpaces` is the number of non-whitespace units.
- `wordsAll` is the number of maximal non-whitespace runs once punctuation
  and digits are deleted.
- The counts are ordered: `charsNoSpaces <= charsNoTrailing <= charsAll`.
- Over a whole value, the character counts are taken over `Node.string` of
  the value (the line feeds between blocks never count), and `wordsAll` is
  the sum of the blocks' own words.

## Model

| member | source | states |
|---|---|---|
| FlowEditorJsx.ToPlainText | index.jsx:48-50 | no blocks give the empty string; one block gives exactly its string content, with no line break added |
| FlowEditorJsx.ToPlainTextSeparates | index.jsx:49 | consecutive blocks are separated by exactly one line feed: the text is the first block's content, "\n", then the text of the rest |
| FlowEditorJsx.ToPlainTextLength | index.jsx:49 | the text of a non-empty value is as long as `Node.string` of the whole value plus one unit per boundary between blocks |
| FlowEditorJsx.ToPlainTextLineFeeds | index.jsx:49 | when no block's content holds a line feed, the text holds exactly one line feed per boundary between blocks |
| FlowEditorJsx.FromPlainText | index.jsx:53-59 | one block per line feed plus one; every block has no type, no alignment and a single unmarked leaf without line feeds; the blocks' contents are exactly the pieces of `text.split("\n")` |
| FlowEditorJsx.FromPlainTextNeverEmpty | index.jsx:53-59 | decoding never gives an empty value, and "" decodes to one block with an empty leaf |
| FlowEditorJsx.RoundTrip | index.jsx:48-59 | `toPlainText(fromPlainText(s)) == s` for every string |
| FlowEditorJsx.DecodeEncode | index.jsx:48-59 | for a non-empty value whose blocks hold no line feed, `fromPlainText(toPlainText(v))` has one block per block of `v`, holding that block's string content; types, alignment and marks are dropped |
| FlowEditorJsx.TextStable | index.jsx:48-59 | a full encode, decode, encode cycle gives the first encoding back |
| FlowEditorJsx.StatisticsBounds | index.jsx:76-99 | `charsNoSpaces <= charsNoTrailing <= charsAll` |
| FlowEditorJsx.CharsAllCount | index.jsx:76-97 | `charsAll` is the text length less the number of CR and LF units; CR LF and lone CR or LF are all deleted |
| FlowEditorJsx.CharsNoSpacesCount | index.jsx:76-99 | `charsNoSpaces` is the number of units of the plain text that are not whitespace |
| FlowEditorJsx.WordText | index.jsx:88-94 | the string whose pieces are counted is empty or has no whitespace but single spaces, never two in a row and none at its ends |
| FlowEditorJsx.WordTextKeepsWords | index.jsx:83-94 | the string whose pieces are counted has the same words as the text without punctuation and digits |
| FlowEditorJsx.WordsAllCountsWords | index.jsx:83-100 | `wordsAll` equals the number of maximal non-whitespace runs in the text once punctuation and digits are deleted |
| FlowEditorJsx.NoWordsIffBlank | index.jsx:83-100 | `wordsAll` is 0 exactly when only whitespace remains after punctuation and digits are deleted (both directions) |
| FlowEditorJsx.GetStatistics | index.jsx:73-104 | `charsNoSpaces <= charsNoTrailing <= charsAll` for every value, and an empty value gives four zeros |
| FlowEditorJsx.FilterPlainText | index.jsx:74-81 | deleting a set of units that includes LF from the plain text gives what it gives on `Node.string` of the whole value: the separators `toPlainText` adds disappear |
| FlowEditorJsx.WordsOfPlainText | index.jsx:74-100 | the plain text without punctuation and digits has as many words as the blocks' contents have together: the LF between blocks always separates words |
| FlowEditorJsx.StatisticsOfValue | index.jsx:73-104 | all four counts of a value: CR/LF-free units of the whole value's content, their trimmed length, its non-whitespace units, and the sum over blocks of their words |
| FlowEditorJsx.StatisticsOfText | index.jsx:73-104 | all four counts at once: units without CR/LF, their trimmed length, non-whitespace units, words of the punctuation-free text |
| FlowEditorJsx.TwoWordsOneLine | index.jsx:73-104 | two plain words joined by a space count the space in `charsAll` and `charsNoTrailing` but not in `charsNoSpaces`, and count 2 words |
| FlowEditorJsx.TwoWordsAroundLineBreak | index.jsx:73-104 | two plain words on two lines: the line feed counts in no character count, yet there are 2 words |
| FlowEditorJsx.TwoWordsTwoBlocks | index.jsx:73-104 | two blocks each holding one plain word: characters are the two words' lengths, words are 2 |
| FlowEditorJsx.HelloWorld | index.jsx:73-104 | "Hello world" in one block gives 11, 11, 10 characters and 2 words |
| FlowEditorJsx.BlocksAB | index.jsx:73-104 | blocks "a" and "b" give 2, 2, 2 characters and 2 words |
| FlowEditorJs.SerializePlainText | index.js:187-189 | no blocks give the empty string; one block gives exactly its string content |
| FlowEditorJs.DeserializePlainText | index.js:193-199 | one block per line feed plus one |
| FlowEditorJs.DeserializedBlocks | index.js:193-199 | each block has no type, no alignment and a single unmarked leaf without line feeds, holding the i-th piece of `string.split("\n")` |
| FlowEditorJs.AgreesWithIndexJsx | index.js:187-199 | the codec of index.js equals the codec of index.jsx on every input |
| FlowEditorJs.SerializeDeserialize | index.js:187-199 | `serializePlainText(deserializePlainText(s)) == s` for every string |
| FlowEditorJs.SerializeStable | index.js:187-199 | a serialize, deserialize, serialize cycle gives the first serialization back |
| FlowEditorJs.EmptyValue | index.js:187-199 | no blocks serialize to ""; "" deserializes to one block with an empty leaf, not to an empty value |
| Document.BlockStringsTotal | index.jsx:49 | the strings of `value.map((n) => Node.string(n))` are together exactly as long as `Node.string` of the whole value |
| Document.Paragraph | index.jsx:55-57 | the block `{ children: [{ text }] }` has string content `text` |
| JsText.Split | index.jsx:54 | `split` on a one-unit separator gives one piece per separator plus one |
| JsText.SplitPiecesLackSeparator | index.jsx:54 | no piece of a split holds the separator |
| JsText.JoinSplit | index.jsx:49 | joining the pieces of a split with the same separator gives the string back |
| JsText.SplitJoin | index.jsx:54 | splitting a join of separator-free pieces (at least one) gives the pieces back |
| JsText.JoinLength | index.jsx:49 | a join is as long as its pieces together plus one per separator |
| JsText.JoinCount | index.jsx:49 | a join of separator-free pieces holds one separator per boundary |
| JsText.TrimStart | index.jsx:79 | the result is a suffix starting with a non-whitespace unit (or empty) and only whitespace was dropped |
| JsText.TrimEnd | index.jsx:79 | the result is a prefix ending with a non-whitespace unit (or empty) and only whitespace was dropped |
| JsText.TrimEnds | index.jsx:90 | trimmed text is empty or starts and ends with a non-whitespace unit |
| JsText.FilterSpacesTrim | index.jsx:79 | `trim` keeps every non-whitespace unit, in order |
| JsText.ReplaceLineBreaks | index.jsx:77 | the empty string stays empty; a first or last unit that is not a line break is kept |
| JsText.RemoveLineBreaksIsFilter | index.jsx:77 | replacing `/(\r\n|\n|\r)/gm` by "" deletes exactly the CR and LF units |
| JsText.NoLineBreaksUnchanged | index.jsx:92 | a string without line breaks is left unchanged |
| JsText.WordsReplaceLineBreaks | index.jsx:92 | turning line breaks into spaces keeps the word count |
| JsText.RemoveSpaceRunsIsFilter | index.jsx:81 | replacing `/\s+/g` by "" deletes exactly the whitespace units |
| JsText.CollapseEnds | index.jsx:94 | collapsing whitespace runs to " " gives "" only for "", and keeps a non-whitespace first or last unit |
| JsText.CollapseSingleSpaces | index.jsx:94 | after collapsing, the only whitespace is single spaces, never two in a row |
| JsText.CollapseKeepsNonSpace | index.jsx:94 | collapsing whitespace runs to " " keeps every non-whitespace unit, in order |
| JsText.CollapsedAfterTrim | index.jsx:90-94 | text with non-whitespace ends, its line breaks turned to spaces and its runs collapsed, is empty or has single spaces only, none at its ends |
| JsText.WordsCollapse | index.jsx:94 | collapsing whitespace runs keeps the word count |
| JsText.WordsTrim | index.jsx:90 | trimming keeps the word count |
| JsText.SplitCollapsedCountsWords | index.jsx:100 | splitting non-empty collapsed text on " " gives one piece per word |
| JsText.NoWordsIffAllSpace | index.jsx:100 | a string has no words exactly when every unit is whitespace |
| JsText.TwoWordsApart | index.jsx:100 | two non-whitespace runs with one whitespace unit between them are two words |
| JsText.FilterLineBreaksLength | index.jsx:97 | deleting CR and LF shortens a string by the number of CR and LF units |
| JsText.Filter | index.jsx:83-86 | the result is no longer than the input and every kept unit satisfies the predicate |
| JsText.FilterAppend | index.jsx:83-86 | deleting units from a concatenation deletes them from each part |

## Left out

- The rest of `FlowEditor` is not part of this model. That covers the mark,
  block and alignment queries and toggles (`isMarkActive`, `toggleMark`,
  `isBlockActive`, `toggleBlock`, `isAlignActive`, `toggleAlign`), which
  are thin wrappers over the Slate editing framework. It also covers the
  persistence helpers (`toJSON`/`fromJSON`, `save`/`load`), which are
  `JSON` and `localStorage` I/O.
- The `onChange` storage writes, fullscreen, `window.print`, the navigator check
  and every React component are left out. Each is browser I/O or rendering
  with no logic of its own.
- app.js, src/index.js and esbuild.js are not part of this model. app.js is
  another editor variant with only toggles, storage and rendering.
  src/index.js is a draft-js component, and esbuild.js is the build script.
- `Node.string` is not the framework's code. It is modelled by its meaning,
  the leaf texts concatenated in order (`Document.NodeString`).
- The document tree has no invariants here beyond its shape. The framework
  enforces the rest, for example that a leaf has no children.
- The punctuation-and-digit replacement is modelled unit by unit
  (`FlowEditorJsx.IsPunctuation`). It is written with `\d+`, but deleting a
  run of digits and deleting each digit give the same string.
- Only the ASCII digits count as digits, as `\d` is `[0-9]`.
- The characters outside the Basic Multilingual Plane are two code units
  each, exactly as JavaScript counts them. No Unicode normalisation is
  modelled.
- JsText.ReplaceSpaceRuns: its own contract is empty. It is specified
  through `RemoveSpaceRunsIsFilter`, `CollapseKeepsNonSpace`, `CollapseEnds`,
  `CollapseSingleSpaces` and `WordsCollapse`.
- JsText.Join: its own contract is empty. It is specified through
  `JoinLength`, `JoinCount`, `JoinSplit` and `SplitJoin`.
- JsText.IsSpace: a definition with no contract. It lists the code units of
  the WhiteSpace and LineTerminator tables of ECMA-262, which `\s` and
  `trim` share.
- FlowEditorJsx.BlockWords: a reference definition with no contract. It
  sums each block's words, and `WordsOfPlainText` ties it to `wordsAll`.
- Document.BlockStrings: a definition with no contract. It is
  `value.map((n) => Node.string(n))`, and `BlockStringsTotal` ties it to
  `Node.string` of the whole value.
- JsText.Trim: its own contract is empty. Its meaning comes from
  `TrimStart` and `TrimEnd`, which it composes.
- FlowEditorJsx.TextStatistics: no contract of its own. The statistics
  lemmas above state what each field means.
