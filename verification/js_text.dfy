/** JavaScript strings and the built-in string operations the editor's
    plain-text codec and statistics are written with: `split` and `join`
    on a one-unit separator, `trim`, and the three regular-expression
    replacements (line breaks, whitespace runs, single characters). */
module JsText {

  /** A UTF-16 code unit. A JavaScript string is a sequence of them, and
      `length`, `trim` and regular expressions without the `u` flag all
      work unit by unit. */
  newtype CodeUnit = x: int | 0 <= x < 0x1_0000

  type JsString = seq<CodeUnit>

  const LF: CodeUnit := 0x0A
  const CR: CodeUnit := 0x0D
  const SPACE: CodeUnit := 0x20

  /** The units matched by the alternatives of `/(\r\n|\n|\r)/`. */
  predicate IsLineBreak(c: CodeUnit) {
    c == CR || c == LF
  }

  predicate NonLineBreak(c: CodeUnit) {
    !IsLineBreak(c)
  }

  /** The class `\s`: WhiteSpace and LineTerminator of ECMA-262, which is
      also exactly what `String.prototype.trim` strips from both ends. */
  predicate IsSpace(c: CodeUnit) {
    || c == 0x09 || c == 0x0A || c == 0x0B || c == 0x0C || c == 0x0D
    || c == 0x20 || c == 0xA0 || c == 0x1680
    || (0x2000 <= c <= 0x200A)
    || c == 0x2028 || c == 0x2029 || c == 0x202F || c == 0x205F
    || c == 0x3000 || c == 0xFEFF
  }

  predicate NonSpace(c: CodeUnit) {
    !IsSpace(c)
  }

  /** Number of occurrences of `x` in `s`. */
  function Count(s: JsString, x: CodeUnit): (n: nat)
    ensures n <= |s|
  {
    if s == [] then 0 else (if s[0] == x then 1 else 0) + Count(s[1..], x)
  }

  /** A unit occurs nowhere exactly when it is counted zero times. */
  lemma {:induction false} CountZeroIffAbsent(s: JsString, x: CodeUnit)
    ensures Count(s, x) == 0 <==> x !in s
  {
    if s != [] {
      CountZeroIffAbsent(s[1..], x);
      assert s == [s[0]] + s[1..];
    }
  }

  /** The units of `s` that satisfy `keep`, in order. */
  function Filter(s: JsString, keep: CodeUnit -> bool): (r: JsString)
    ensures |r| <= |s|
    ensures forall i :: 0 <= i < |r| ==> keep(r[i])
  {
    if s == [] then [] else (if keep(s[0]) then [s[0]] else []) + Filter(s[1..], keep)
  }

  lemma {:induction false} FilterAppend(a: JsString, b: JsString, keep: CodeUnit -> bool)
    ensures Filter(a + b, keep) == Filter(a, keep) + Filter(b, keep)
  {
    if a == [] {
      assert a + b == b;
    } else {
      assert (a + b)[1..] == a[1..] + b;
      FilterAppend(a[1..], b, keep);
    }
  }

  /** A filter that every unit passes changes nothing. */
  lemma {:induction false} FilterKeepsAll(s: JsString, keep: CodeUnit -> bool)
    requires forall i :: 0 <= i < |s| ==> keep(s[i])
    ensures Filter(s, keep) == s
  {
    if s != [] {
      FilterKeepsAll(s[1..], keep);
      assert s == [s[0]] + s[1..];
    }
  }

  /** Deleting line breaks shortens a string by exactly its CR and LF units. */
  lemma {:induction false} FilterLineBreaksLength(s: JsString)
    ensures |Filter(s, NonLineBreak)| == |s| - Count(s, CR) - Count(s, LF)
  {
    if s != [] {
      FilterLineBreaksLength(s[1..]);
    }
  }

  /** Line breaks are whitespace, so deleting them first changes nothing
      about which non-whitespace units remain. */
  lemma {:induction false} FilterSpacesAfterLineBreaks(s: JsString)
    ensures Filter(Filter(s, NonLineBreak), NonSpace) == Filter(s, NonSpace)
  {
    if s != [] {
      FilterSpacesAfterLineBreaks(s[1..]);
      FilterAppend(if NonLineBreak(s[0]) then [s[0]] else [], Filter(s[1..], NonLineBreak), NonSpace);
    }
  }

  // ---------------------------------------------------------------------
  // split and join

  /** `s.split(sep)` for a separator of one unit: the pieces between the
      separators, in order. The empty string splits into one empty piece. */
  function Split(s: JsString, sep: CodeUnit): (r: seq<JsString>)
    ensures |r| == Count(s, sep) + 1
    decreases |s|
  {
    if s == [] then [[]]
    else
      var rest := Split(s[1..], sep);
      if s[0] == sep then [[]] + rest
      else [[s[0]] + rest[0]] + rest[1..]
  }

  /** No piece of a split holds the separator. */
  lemma {:induction false} SplitPiecesLackSeparator(s: JsString, sep: CodeUnit)
    ensures forall i :: 0 <= i < |Split(s, sep)| ==> sep !in Split(s, sep)[i]
    decreases |s|
  {
    if s != [] {
      SplitPiecesLackSeparator(s[1..], sep);
      var rest := Split(s[1..], sep);
      var r := Split(s, sep);
      if s[0] != sep {
        assert r[0] == [s[0]] + rest[0];
      }
      assert forall i :: 1 <= i < |r| ==> r[i] == rest[i - (if s[0] == sep then 1 else 0)];
    }
  }

  function SumLengths(parts: seq<JsString>): nat
  {
    if parts == [] then 0 else |parts[0]| + SumLengths(parts[1..])
  }

  /** `parts.join(sep)`: the parts in order, with one separator between
      each two consecutive parts; no parts give the empty string. */
  function Join(parts: seq<JsString>, sep: CodeUnit): JsString
  {
    if |parts| == 0 then []
    else if |parts| == 1 then parts[0]
    else parts[0] + [sep] + Join(parts[1..], sep)
  }

  /** Joining adds exactly one separator between consecutive parts. */
  lemma {:induction false} JoinLength(parts: seq<JsString>, sep: CodeUnit)
    requires |parts| > 0
    ensures |Join(parts, sep)| == SumLengths(parts) + |parts| - 1
  {
    if |parts| > 1 {
      JoinLength(parts[1..], sep);
    }
  }

  /** Joining adds one separator per boundary to those already in the parts. */
  lemma {:induction false} JoinCount(parts: seq<JsString>, sep: CodeUnit)
    requires |parts| > 0
    requires forall i :: 0 <= i < |parts| ==> sep !in parts[i]
    ensures Count(Join(parts, sep), sep) == |parts| - 1
  {
    CountZeroIffAbsent(parts[0], sep);
    if |parts| > 1 {
      JoinCount(parts[1..], sep);
      CountAppend(parts[0], [sep], sep);
      CountAppend(parts[0] + [sep], Join(parts[1..], sep), sep);
    }
  }

  lemma {:induction false} CountAppend(a: JsString, b: JsString, x: CodeUnit)
    ensures Count(a + b, x) == Count(a, x) + Count(b, x)
  {
    if a == [] {
      assert a + b == b;
    } else {
      assert (a + b)[1..] == a[1..] + b;
      CountAppend(a[1..], b, x);
    }
  }

  /** Joining the pieces of a split gives the string back. */
  lemma {:induction false} JoinSplit(s: JsString, sep: CodeUnit)
    ensures Join(Split(s, sep), sep) == s
    decreases |s|
  {
    if s != [] {
      JoinSplit(s[1..], sep);
      JoinSplitStep(s[0], s[1..], sep);
      assert s == [s[0]] + s[1..];
    }
  }

  /** One unit in front of a string whose split joins back to it. */
  lemma JoinSplitStep(c: CodeUnit, t: JsString, sep: CodeUnit)
    requires Join(Split(t, sep), sep) == t
    ensures Join(Split([c] + t, sep), sep) == [c] + t
  {
    var rest := Split(t, sep);
    assert ([c] + t)[1..] == t;
    if c == sep {
      JoinCons([], rest, sep);
    } else if |rest| > 1 {
      JoinCons([c] + rest[0], rest[1..], sep);
      JoinCons(rest[0], rest[1..], sep);
      assert rest == [rest[0]] + rest[1..];
    }
  }

  /** Joining a part in front of at least one other part puts one
      separator between it and the join of the others. */
  lemma JoinCons(first: JsString, rest: seq<JsString>, sep: CodeUnit)
    requires |rest| > 0
    ensures Join([first] + rest, sep) == first + [sep] + Join(rest, sep)
  {
    assert ([first] + rest)[1..] == rest;
  }

  lemma SplitCons(c: CodeUnit, s: JsString, sep: CodeUnit)
    requires c != sep
    ensures Split([c] + s, sep) == [[c] + Split(s, sep)[0]] + Split(s, sep)[1..]
  {
    assert ([c] + s)[1..] == s;
  }

  /** Splitting a string that begins with a separator-free prefix `a`
      glues `a` onto the first piece and leaves the other pieces alone. */
  lemma {:induction false} SplitPrefix(a: JsString, t: JsString, sep: CodeUnit)
    requires sep !in a
    ensures Split(a + t, sep)[0] == a + Split(t, sep)[0]
    ensures Split(a + t, sep)[1..] == Split(t, sep)[1..]
  {
    if a == [] {
      assert a + t == t;
    } else {
      var rest := Split(a[1..] + t, sep);
      SplitPrefix(a[1..], t, sep);
      assert a + t == [a[0]] + (a[1..] + t);
      SplitCons(a[0], a[1..] + t, sep);
      assert [a[0]] + (a[1..] + Split(t, sep)[0]) == a + Split(t, sep)[0];
    }
  }

  /** Splitting a join of separator-free parts gives the parts back. */
  lemma {:induction false} SplitJoin(parts: seq<JsString>, sep: CodeUnit)
    requires |parts| > 0
    requires forall i :: 0 <= i < |parts| ==> sep !in parts[i]
    ensures Split(Join(parts, sep), sep) == parts
  {
    if |parts| == 1 {
      SplitPrefix(parts[0], [], sep);
      assert parts[0] + [] == parts[0];
    } else {
      SplitJoin(parts[1..], sep);
      SplitJoinStep(parts[0], Join(parts[1..], sep), parts[1..], sep);
      assert parts == [parts[0]] + parts[1..];
    }
  }

  /** A separator-free part, a separator, then a tail that splits into
      `rest`: the split is the part followed by `rest`. */
  lemma SplitJoinStep(first: JsString, tail: JsString, rest: seq<JsString>, sep: CodeUnit)
    requires sep !in first
    requires Split(tail, sep) == rest
    ensures Split(first + [sep] + tail, sep) == [first] + rest
  {
    var r := Split(first + [sep] + tail, sep);
    assert Split([sep] + tail, sep) == [[]] + rest;
    SplitPrefix(first, [sep] + tail, sep);
    assert first + [sep] + tail == first + ([sep] + tail);
    assert first + [] == first;
    assert r == [r[0]] + r[1..];
  }

  // ---------------------------------------------------------------------
  // trim

  /** Leading whitespace removed: what remains is a suffix that is empty or
      starts with a non-whitespace unit, and only whitespace was dropped. */
  function TrimStart(s: JsString): (r: JsString)
    ensures |r| <= |s| && r == s[|s| - |r|..]
    ensures forall k :: 0 <= k < |s| - |r| ==> IsSpace(s[k])
    ensures r == [] || !IsSpace(r[0])
  {
    if s != [] && IsSpace(s[0]) then TrimStart(s[1..]) else s
  }

  /** Trailing whitespace removed: what remains is a prefix that is empty or
      ends with a non-whitespace unit, and only whitespace was dropped. */
  function TrimEnd(s: JsString): (r: JsString)
    ensures |r| <= |s| && r == s[..|r|]
    ensures forall k :: |r| <= k < |s| ==> IsSpace(s[k])
    ensures r == [] || !IsSpace(r[|r| - 1])
  {
    if s != [] && IsSpace(s[|s| - 1]) then TrimEnd(s[..|s| - 1]) else s
  }

  /** `s.trim()`. */
  function Trim(s: JsString): JsString
  {
    TrimEnd(TrimStart(s))
  }

  /** Trimmed text is empty or starts and ends with non-whitespace. */
  lemma TrimEnds(s: JsString)
    ensures var t := Trim(s);
      t == [] || (!IsSpace(t[0]) && !IsSpace(t[|t| - 1]))
  {
    var t := Trim(s);
    if t != [] {
      assert t == TrimStart(s)[..|t|];
    }
  }

  lemma {:induction false} FilterSpacesTrimStart(s: JsString)
    ensures Filter(TrimStart(s), NonSpace) == Filter(s, NonSpace)
  {
    if s != [] && IsSpace(s[0]) {
      FilterSpacesTrimStart(s[1..]);
    }
  }

  lemma {:induction false} FilterSpacesTrimEnd(s: JsString)
    ensures Filter(TrimEnd(s), NonSpace) == Filter(s, NonSpace)
    decreases |s|
  {
    if s != [] && IsSpace(s[|s| - 1]) {
      var init := s[..|s| - 1];
      FilterSpacesTrimEnd(init);
      assert s == init + [s[|s| - 1]];
      FilterAppend(init, [s[|s| - 1]], NonSpace);
    }
  }

  /** Trimming only drops whitespace: the non-whitespace units are kept. */
  lemma FilterSpacesTrim(s: JsString)
    ensures Filter(Trim(s), NonSpace) == Filter(s, NonSpace)
  {
    FilterSpacesTrimStart(s);
    FilterSpacesTrimEnd(TrimStart(s));
  }

  // ---------------------------------------------------------------------
  // the regular-expression replacements

  /** `s.replace(/(\r\n|\n|\r)/gm, rep)`: scanning left to right, a CR LF
      pair is one match (the first alternative wins), as is a lone LF or CR;
      every match becomes `rep`. */
  function ReplaceLineBreaks(s: JsString, rep: JsString): (r: JsString)
    ensures s == [] ==> r == []
    ensures s != [] && !IsLineBreak(s[0]) ==> r != [] && r[0] == s[0]
    ensures s != [] && !IsLineBreak(s[|s| - 1]) ==> r != [] && r[|r| - 1] == s[|s| - 1]
    decreases |s|
  {
    if s == [] then []
    else if |s| >= 2 && s[0] == CR && s[1] == LF then rep + ReplaceLineBreaks(s[2..], rep)
    else if IsLineBreak(s[0]) then rep + ReplaceLineBreaks(s[1..], rep)
    else [s[0]] + ReplaceLineBreaks(s[1..], rep)
  }

  /** A string without line breaks is left as it is. */
  lemma {:induction false} NoLineBreaksUnchanged(s: JsString, rep: JsString)
    requires forall i :: 0 <= i < |s| ==> !IsLineBreak(s[i])
    ensures ReplaceLineBreaks(s, rep) == s
  {
    if s != [] {
      NoLineBreaksUnchanged(s[1..], rep);
      assert s == [s[0]] + s[1..];
    }
  }

  /** Replacing line breaks by nothing deletes each CR and LF unit. */
  lemma {:induction false} RemoveLineBreaksIsFilter(s: JsString)
    ensures ReplaceLineBreaks(s, []) == Filter(s, NonLineBreak)
    decreases |s|
  {
    if s != [] {
      if |s| >= 2 && s[0] == CR && s[1] == LF {
        RemoveLineBreaksIsFilter(s[2..]);
        assert s[1..][1..] == s[2..];
      } else {
        RemoveLineBreaksIsFilter(s[1..]);
      }
    }
  }

  /** `s.replace(/\s+/g, rep)`: every maximal run of whitespace becomes `rep`. */
  function ReplaceSpaceRuns(s: JsString, rep: JsString): (r: JsString)
    decreases |s|
  {
    if s == [] then []
    else if IsSpace(s[0]) then rep + ReplaceSpaceRuns(TrimStart(s[1..]), rep)
    else [s[0]] + ReplaceSpaceRuns(s[1..], rep)
  }

  /** Replacing whitespace runs by nothing deletes each whitespace unit. */
  lemma {:induction false} RemoveSpaceRunsIsFilter(s: JsString)
    ensures ReplaceSpaceRuns(s, []) == Filter(s, NonSpace)
    decreases |s|
  {
    if s != [] {
      if IsSpace(s[0]) {
        RemoveSpaceRunsIsFilter(TrimStart(s[1..]));
        FilterSpacesTrimStart(s[1..]);
      } else {
        RemoveSpaceRunsIsFilter(s[1..]);
      }
    }
  }

  /** Collapsing whitespace runs to one space keeps every non-whitespace
      unit, in order. */
  lemma {:induction false} CollapseKeepsNonSpace(s: JsString)
    ensures Filter(ReplaceSpaceRuns(s, [SPACE]), NonSpace) == Filter(s, NonSpace)
    decreases |s|
  {
    if s != [] {
      if IsSpace(s[0]) {
        var t := TrimStart(s[1..]);
        CollapseKeepsNonSpace(t);
        FilterSpacesTrimStart(s[1..]);
        FilterAppend([SPACE], ReplaceSpaceRuns(t, [SPACE]), NonSpace);
      } else {
        CollapseKeepsNonSpace(s[1..]);
        FilterAppend([s[0]], ReplaceSpaceRuns(s[1..], [SPACE]), NonSpace);
      }
    }
  }

  /** Turning the line breaks of text with non-whitespace ends into spaces
      and collapsing whitespace runs to one space gives collapsed text. */
  lemma CollapsedAfterTrim(t: JsString)
    requires t == [] || (!IsSpace(t[0]) && !IsSpace(t[|t| - 1]))
    ensures var w := ReplaceSpaceRuns(ReplaceLineBreaks(t, [SPACE]), [SPACE]);
      w == [] || Collapsed(w)
  {
    var r := ReplaceLineBreaks(t, [SPACE]);
    CollapseEnds(r);
    CollapseSingleSpaces(r);
  }

  /** Text whose only whitespace is single spaces, none at either end. */
  ghost predicate Collapsed(t: JsString) {
    && SingleSpaced(t)
    && (t == [] || (!IsSpace(t[0]) && !IsSpace(t[|t| - 1])))
  }

  /** Collapsing whitespace runs gives the empty string only for the
      empty string, and keeps a non-whitespace first or last unit. */
  lemma {:induction false} CollapseEnds(s: JsString)
    ensures var r := ReplaceSpaceRuns(s, [SPACE]);
      && (r == [] <==> s == [])
      && (s != [] && !IsSpace(s[0]) ==> r[0] == s[0])
      && (s != [] && !IsSpace(s[|s| - 1]) ==> r[|r| - 1] == s[|s| - 1])
    decreases |s|
  {
    if s != [] && !IsSpace(s[|s| - 1]) {
      if IsSpace(s[0]) {
        var t := TrimStart(s[1..]);
        CollapseEnds(t);
        assert t != [] && t[|t| - 1] == s[|s| - 1];
      } else {
        CollapseEnds(s[1..]);
      }
    }
  }

  /** The only whitespace is single spaces, never two in a row. */
  ghost predicate SingleSpaced(r: JsString) {
    && (forall i :: 0 <= i < |r| && IsSpace(r[i]) ==> r[i] == SPACE)
    && (forall i :: 0 <= i < |r| - 1 ==> !(IsSpace(r[i]) && IsSpace(r[i + 1])))
  }

  lemma SingleSpacedCons(c: CodeUnit, rt: JsString)
    requires SingleSpaced(rt)
    requires IsSpace(c) ==> c == SPACE && (rt == [] || !IsSpace(rt[0]))
    ensures SingleSpaced([c] + rt)
  {
    var r := [c] + rt;
    forall i | 1 <= i < |r|
      ensures r[i] == rt[i - 1]
    {
    }
  }

  /** Collapsing whitespace runs leaves no whitespace but single spaces. */
  lemma {:induction false} CollapseSingleSpaces(s: JsString)
    ensures SingleSpaced(ReplaceSpaceRuns(s, [SPACE]))
    decreases |s|
  {
    if s != [] {
      if IsSpace(s[0]) {
        var t := TrimStart(s[1..]);
        CollapseSingleSpaces(t);
        CollapseEnds(t);
        SingleSpacedCons(SPACE, ReplaceSpaceRuns(t, [SPACE]));
      } else {
        CollapseSingleSpaces(s[1..]);
        SingleSpacedCons(s[0], ReplaceSpaceRuns(s[1..], [SPACE]));
      }
    }
  }

  // ---------------------------------------------------------------------
  // words

  /** Number of word starts in `s`: a non-whitespace unit that comes first
      (when `afterSpace` holds) or right after a whitespace unit. */
  function WordStarts(s: JsString, afterSpace: bool): nat
  {
    if s == [] then 0
    else (if afterSpace && !IsSpace(s[0]) then 1 else 0) + WordStarts(s[1..], IsSpace(s[0]))
  }

  /** The number of maximal runs of non-whitespace units in `s`. */
  function Words(s: JsString): nat
  {
    WordStarts(s, true)
  }

  /** A non-empty string without whitespace is one word, which starts at
      its beginning only when that follows whitespace or the start. */
  lemma {:induction false} WordStartsOfWord(s: JsString, p: bool)
    requires s != [] && forall i :: 0 <= i < |s| ==> !IsSpace(s[i])
    ensures WordStarts(s, p) == if p then 1 else 0
  {
    if |s| > 1 {
      WordStartsOfWord(s[1..], false);
    }
  }

  /** Two runs of non-whitespace with one whitespace unit between them
      are two words. */
  lemma TwoWordsApart(w1: JsString, c: CodeUnit, w2: JsString)
    requires w1 != [] && forall i :: 0 <= i < |w1| ==> !IsSpace(w1[i])
    requires w2 != [] && forall i :: 0 <= i < |w2| ==> !IsSpace(w2[i])
    requires IsSpace(c)
    ensures Words(w1 + [c] + w2) == 2
  {
    WordStartsAppend(w1 + [c], w2, true);
    WordStartsAppend(w1, [c], true);
    assert (w1 + [c])[|w1|] == c;
    assert WordStarts([c], false) == 0;
    WordStartsOfWord(w1, true);
    WordStartsOfWord(w2, true);
  }

  /** There are no words exactly when everything is whitespace. */
  lemma {:induction false} NoWordsIffAllSpace(s: JsString)
    ensures Words(s) == 0 <==> forall i :: 0 <= i < |s| ==> IsSpace(s[i])
  {
    if s != [] {
      NoWordsIffAllSpace(s[1..]);
      if IsSpace(s[0]) {
        assert forall i :: 1 <= i < |s| ==> s[i] == s[1..][i - 1];
      }
    }
  }

  lemma {:induction false} WordStartsAppend(a: JsString, b: JsString, p: bool)
    ensures WordStarts(a + b, p) == WordStarts(a, p) + WordStarts(b, if a == [] then p else IsSpace(a[|a| - 1]))
  {
    if a == [] {
      assert a + b == b;
    } else {
      assert (a + b)[1..] == a[1..] + b;
      WordStartsAppend(a[1..], b, IsSpace(a[0]));
    }
  }

  lemma {:induction false} WordsTrimStart(s: JsString)
    ensures WordStarts(TrimStart(s), true) == WordStarts(s, true)
  {
    if s != [] && IsSpace(s[0]) {
      WordsTrimStart(s[1..]);
    }
  }

  lemma {:induction false} WordsTrimEnd(s: JsString, p: bool)
    ensures WordStarts(TrimEnd(s), p) == WordStarts(s, p)
    decreases |s|
  {
    if s != [] && IsSpace(s[|s| - 1]) {
      var init := s[..|s| - 1];
      WordsTrimEnd(init, p);
      assert s == init + [s[|s| - 1]];
      WordStartsAppend(init, [s[|s| - 1]], p);
    }
  }

  /** Trimming keeps every word. */
  lemma WordsTrim(s: JsString)
    ensures Words(Trim(s)) == Words(s)
  {
    WordsTrimStart(s);
    WordsTrimEnd(TrimStart(s), true);
  }

  /** Turning line breaks into spaces keeps every word. */
  lemma {:induction false} WordsReplaceLineBreaks(s: JsString, p: bool)
    ensures WordStarts(ReplaceLineBreaks(s, [SPACE]), p) == WordStarts(s, p)
    decreases |s|
  {
    if s != [] {
      if |s| >= 2 && s[0] == CR && s[1] == LF {
        WordsReplaceLineBreaks(s[2..], true);
        assert s[1..][1..] == s[2..];
      } else {
        WordsReplaceLineBreaks(s[1..], IsSpace(s[0]));
      }
    }
  }

  /** Collapsing whitespace runs keeps every word. */
  lemma {:induction false} WordsCollapse(s: JsString, p: bool)
    ensures WordStarts(ReplaceSpaceRuns(s, [SPACE]), p) == WordStarts(s, p)
    decreases |s|
  {
    if s != [] {
      if IsSpace(s[0]) {
        WordsCollapse(TrimStart(s[1..]), true);
        WordsTrimStart(s[1..]);
      } else {
        WordsCollapse(s[1..], false);
      }
    }
  }

  /** In collapsed text, with no whitespace at its end, the words are the
      spaces plus one for a word at the very start. */
  lemma {:induction false} WordStartsOfCollapsed(t: JsString, p: bool)
    requires forall i :: 0 <= i < |t| && IsSpace(t[i]) ==> t[i] == SPACE
    requires forall i :: 0 <= i < |t| - 1 ==> !(IsSpace(t[i]) && IsSpace(t[i + 1]))
    requires t == [] || !IsSpace(t[|t| - 1])
    ensures WordStarts(t, p) == Count(t, SPACE) + (if t != [] && p && !IsSpace(t[0]) then 1 else 0)
  {
    if t != [] {
      var r := t[1..];
      assert forall i :: 0 <= i < |r| ==> r[i] == t[i + 1];
      WordStartsOfCollapsed(r, IsSpace(t[0]));
    }
  }

  /** Splitting collapsed text on spaces gives one piece per word. */
  lemma SplitCollapsedCountsWords(t: JsString)
    requires Collapsed(t) && t != []
    ensures |Split(t, SPACE)| == Words(t)
  {
    WordStartsOfCollapsed(t, true);
  }
}
