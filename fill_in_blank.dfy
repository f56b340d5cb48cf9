/** `processFillInTheBlankCode` of the code-exercise webview: the exercise
    text is split into lines, each line is HTML-escaped, every placeholder in
    it becomes an `<input>` tag with the next consecutive id, and the line is
    wrapped in a numbered `code-line` div. */
module FillInBlank {
  import opened JsStrings
  import opened HtmlEscape

  /** The expected answer of every generated blank, and the `data-expected`
      attribute of every generated input tag. */
  const Blank: string := "___"

  /** The placeholder literal of the exercise script, as its UTF-8 text reads
      when decoded: U+00F0 U+0178 U+00A4. */
  const SourcePlaceholder: string := "\U{00F0}\U{0178}\U{00A4}"

  /** One entry of the `placeholders` array. */
  datatype Placeholder = Placeholder(id: string, expectedAnswer: string)

  /** What the model assumes of the placeholder: non-empty and made only of
      non-ASCII characters, so that neither the entities escaping produces
      nor the generated input tags can contain or overlap it. */
  predicate ValidPlaceholder(p: string) {
    |p| > 0 && NoAscii(p)
  }

  lemma SourcePlaceholderValid()
    ensures ValidPlaceholder(SourcePlaceholder)
    ensures EscapeHtml(SourcePlaceholder) == SourcePlaceholder
  {
    EscapeHtmlIsPerChar(SourcePlaceholder);
    EscapeCharsIdentity(SourcePlaceholder);
  }

  // The fixed parts of the generated markup.
  const InputHeadStart := "<input type='text' class="
  const InputHeadEnd := "'editable-input' data-id='"
  const InputHead := InputHeadStart + InputHeadEnd
  const InputTail := "' data-expected='___' placeholder=''/>"
  const LineHeadStart := "<div class=\"code-line\"><"
  const LineHeadEnd := "span class=\"line-number\">"
  const LineHead := LineHeadStart + LineHeadEnd
  const LineMid := "</span><span class=\"line-content\">"
  const LineTail := "</span></div>"

  // Each fixed part is ASCII; the literals are checked a few characters at a time.

  lemma InputHeadIsAscii()
    ensures AllAscii(InputHead) && InputHead[0] == '<'
  {
    var a, b := InputHeadStart, InputHeadEnd;
    forall i | 0 <= i < |a| ensures IsAscii(a[i]) { }
    forall i | 0 <= i < |b| ensures IsAscii(b[i]) { }
    AllAsciiConcat(a, b);
  }

  lemma InputTailIsAscii()
    ensures AllAscii(InputTail) && InputTail[|InputTail| - 1] == '>'
  {
    var a := "' data-expected='___' placeholder=''/>";
    assert InputTail == a;
    forall i | 0 <= i < |a| ensures IsAscii(a[i]) { }
  }

  lemma LineHeadIsAscii()
    ensures AllAscii(LineHead) && LineHead[0] == '<'
  {
    var a, b := LineHeadStart, LineHeadEnd;
    forall i | 0 <= i < |a| ensures IsAscii(a[i]) { }
    forall i | 0 <= i < |b| ensures IsAscii(b[i]) { }
    AllAsciiConcat(a, b);
  }

  lemma LineMidIsAscii()
    ensures AllAscii(LineMid) && LineMid[|LineMid| - 1] == '>'
  {
    var a := "</span><span class=\"line-content\">";
    assert LineMid == a;
    forall i | 0 <= i < |a| ensures IsAscii(a[i]) { }
  }

  lemma LineTailIsAscii()
    ensures AllAscii(LineTail) && |LineTail| > 0 && LineTail[0] == '<'
  {
    var a := "</span></div>";
    assert LineTail == a;
    forall i | 0 <= i < |a| ensures IsAscii(a[i]) { }
  }

  /** The input tag that replaces a placeholder: it carries the blank's id
      and the expected answer `___`. */
  function InputField(id: nat): (r: string)
    ensures AllAscii(r) && |r| > 0 && r[0] == '<' && r[|r| - 1] == '>'
  {
    InputHeadIsAscii();
    InputTailIsAscii();
    DigitsAreAscii(DecimalString(id));
    AllAsciiConcat(InputHead, DecimalString(id));
    AllAsciiConcat(InputHead + DecimalString(id), InputTail);
    FlattenThree(InputHead, DecimalString(id), InputTail);
    var r := Flatten([InputHead, DecimalString(id), InputTail]);
    assert r[0] == InputHead[0] && r[|r| - 1] == InputTail[|InputTail| - 1];
    r
  }

  /** The input tag holds no `$`, so `replace` inserts it literally. */
  lemma InputFieldHasNoDollar(id: nat)
    ensures '$' !in InputField(id)
  {
    var a, b, d, t := InputHeadStart, InputHeadEnd, DecimalString(id), InputTail;
    forall i | 0 <= i < |a| ensures a[i] != '$' { }
    forall i | 0 <= i < |b| ensures b[i] != '$' { }
    forall i | 0 <= i < |t| ensures t[i] != '$' { }
    LacksConcat(a, b, '$');
    LacksConcat(a + b, d, '$');
    LacksConcat(a + b + d, t, '$');
    FlattenThree(a + b, d, t);
  }

  /** The numbered wrapper of one processed line. */
  function CodeLine(lineNumber: nat, processedLine: string): string {
    CodeLineHead(lineNumber) + processedLine + LineTail
  }

  function CodeLineHead(lineNumber: nat): (r: string)
    ensures AllAscii(r) && |r| > 0 && r[0] == '<' && r[|r| - 1] == '>'
  {
    LineHeadIsAscii();
    LineMidIsAscii();
    DigitsAreAscii(DecimalString(lineNumber));
    AllAsciiConcat(LineHead, DecimalString(lineNumber));
    AllAsciiConcat(LineHead + DecimalString(lineNumber), LineMid);
    FlattenThree(LineHead, DecimalString(lineNumber), LineMid);
    var r := Flatten([LineHead, DecimalString(lineNumber), LineMid]);
    assert r[0] == LineHead[0] && r[|r| - 1] == LineMid[|LineMid| - 1];
    r
  }

  /** The start indices of the placeholders the scan from `pos` finds. */
  function MatchesFrom(line: string, p: string, pos: nat): (ms: seq<nat>)
    requires |p| > 0
    decreases |line| - pos
  {
    var i := IndexOf(line, p, pos);
    if i == -1 then [] else [i] + MatchesFrom(line, p, i + |p|)
  }

  /** The processed line from index `pos` on, the next placeholder getting id `next`. */
  function RenderFrom(line: string, p: string, pos: nat, next: nat): string
    requires |p| > 0 && pos <= |line|
    decreases |line| - pos, 1
  {
    var i := IndexOf(line, p, pos);
    if i == -1 then EscapeChars(line[pos..]) else RenderMatch(line, p, pos, i, next)
  }

  /** The processed line from a placeholder found at `i` on. */
  function RenderMatch(line: string, p: string, pos: nat, i: nat, next: nat): string
    requires |p| > 0 && pos <= i && i + |p| <= |line|
    decreases |line| - pos, 0
  {
    EscapeChars(line[pos..i]) + InputField(next) + RenderFrom(line, p, i + |p|, next + 1)
  }

  /** The placeholders pushed for `count` blanks, the first with id `first`. */
  function Blanks(first: nat, count: nat): (bs: seq<Placeholder>)
    ensures |bs| == count
    ensures forall j :: 0 <= j < count ==> bs[j] == Placeholder(DecimalString(first + j), Blank)
    decreases count
  {
    if count == 0 then [] else [Placeholder(DecimalString(first), Blank)] + Blanks(first + 1, count - 1)
  }

  /** The number of placeholders in all of `lines`. */
  function CountBlanks(lines: seq<string>, p: string): nat
    requires |p| > 0
    decreases |lines|
  {
    if |lines| == 0 then 0
    else CountBlanks(lines[..|lines| - 1], p) + |MatchesFrom(lines[|lines| - 1], p, 0)|
  }

  /** The `code-line` divs of `lines`, built one line at a time. */
  function LineDivs(lines: seq<string>, p: string): seq<string>
    requires |p| > 0
    decreases |lines|
  {
    if |lines| == 0 then []
    else
      var n := |lines| - 1;
      LineDivs(lines[..n], p) + [CodeLine(n + 1, RenderFrom(lines[n], p, 0, CountBlanks(lines[..n], p) + 1))]
  }

  // ---------------------------------------------------------------------
  // The processing code
  // ---------------------------------------------------------------------

  /** The `while (true)` scan of one line: `processedLine` starts as the
      escaped line, and each placeholder found from `position` on is pushed
      with the next id and its escaped form replaced, first occurrence first,
      by an input tag. */
  method ReplacePlaceholders(line: string, p: string, placeholders: seq<Placeholder>)
    returns (processedLine: string, found: seq<Placeholder>)
    requires ValidPlaceholder(p)
    ensures processedLine == RenderFrom(line, p, 0, |placeholders| + 1)
    ensures found == placeholders + Blanks(|placeholders| + 1, |MatchesFrom(line, p, 0)|)
  {
    found := placeholders;
    processedLine := EscapeHtml(line);
    var position: nat := 0;
    ghost var done: string, count: nat := "", 0;
    ScanStart(line, p, placeholders);
    while true
      invariant Scanned(line, p, placeholders, position, found, done, count, processedLine)
      decreases |line| - position
    {
      var placeholderIndex := IndexOf(line, p, position);
      if placeholderIndex == -1 {
        break;
      }
      var placeholderId := |found| + 1;
      var escapedPlaceholder := EscapeHtml(p);
      var inputField := InputField(placeholderId);
      ghost var position0, found0, done0, count0, processedLine0 := position, found, done, count, processedLine;
      found := found + [Placeholder(DecimalString(placeholderId), Blank)];
      processedLine := ReplaceFirst(processedLine, escapedPlaceholder, inputField);
      position := placeholderIndex + |p|;
      done, count := done + EscapeChars(line[position0..placeholderIndex]) + inputField, count + 1;
      ScanTurn(line, p, placeholders, position0, placeholderIndex, found0, done0, count0, processedLine0,
               position, found, done, count, processedLine);
    }
    ScanEnd(line, p, placeholders, position, found, done, count, processedLine);
  }

  /** The invariant of the scan loop: `done` is the processed text before
      `position`, `count` the number of placeholders found so far. */
  ghost predicate Scanned(line: string, p: string, placeholders: seq<Placeholder>, position: nat,
                          found: seq<Placeholder>, done: string, count: nat, processedLine: string)
  {
    ValidPlaceholder(p) && position <= |line| &&
    processedLine == done + EscapeChars(line[position..]) &&
    done + RenderFrom(line, p, position, |found| + 1) == RenderFrom(line, p, 0, |placeholders| + 1) &&
    found == placeholders + Blanks(|placeholders| + 1, count) &&
    count + |MatchesFrom(line, p, position)| == |MatchesFrom(line, p, 0)| &&
    NoOccurrence(done, p) && (done == [] || IsAscii(done[|done| - 1]))
  }

  lemma ScanStart(line: string, p: string, placeholders: seq<Placeholder>)
    requires ValidPlaceholder(p)
    ensures Scanned(line, p, placeholders, 0, placeholders, "", 0, EscapeHtml(line))
  {
    EscapeHtmlIsPerChar(line);
    assert line[0..] == line;
  }

  lemma ScanEnd(line: string, p: string, placeholders: seq<Placeholder>, position: nat,
                found: seq<Placeholder>, done: string, count: nat, processedLine: string)
    requires Scanned(line, p, placeholders, position, found, done, count, processedLine)
    requires IndexOf(line, p, position) == -1
    ensures processedLine == RenderFrom(line, p, 0, |placeholders| + 1)
    ensures found == placeholders + Blanks(|placeholders| + 1, |MatchesFrom(line, p, 0)|)
  {
  }

  /** One turn of the scan that finds a placeholder at `i`: pushing the next
      blank, replacing the placeholder and moving past it keeps the invariant. */
  lemma ScanTurn(line: string, p: string, placeholders: seq<Placeholder>, pos: nat, i: int,
                 found: seq<Placeholder>, done: string, count: nat, processedLine: string,
                 pos': nat, found': seq<Placeholder>, done': string, count': nat, processedLine': string)
    requires Scanned(line, p, placeholders, pos, found, done, count, processedLine)
    requires i == IndexOf(line, p, pos) && i != -1 && pos' == i + |p| && count' == count + 1
    requires processedLine' == ReplaceFirst(processedLine, EscapeHtml(p), InputField(|found| + 1))
    requires found' == found + [Placeholder(DecimalString(|found| + 1), Blank)]
    requires done' == done + EscapeChars(line[pos..i]) + InputField(|found| + 1)
    ensures Scanned(line, p, placeholders, pos', found', done', count', processedLine')
  {
    TurnText(line, p, pos, i, done, |found| + 1, processedLine, done', processedLine');
    TurnCount(line, p, placeholders, pos, i, found, done, count, found', done');
  }

  /** The text side of a turn: the replace puts the input tag where the scan
      found the placeholder, and the processed prefix stays free of placeholders. */
  lemma TurnText(line: string, p: string, pos: nat, i: int, done: string, next: nat,
                 processedLine: string, done': string, processedLine': string)
    requires ValidPlaceholder(p) && pos <= |line| && i == IndexOf(line, p, pos) && i != -1
    requires NoOccurrence(done, p) && (done == [] || IsAscii(done[|done| - 1]))
    requires processedLine == done + EscapeChars(line[pos..])
    requires processedLine' == ReplaceFirst(processedLine, EscapeHtml(p), InputField(next))
    requires done' == done + EscapeChars(line[pos..i]) + InputField(next)
    ensures processedLine' == done' + EscapeChars(line[i + |p|..])
    ensures NoOccurrence(done', p) && IsAscii(done'[|done'| - 1])
  {
    var field := InputField(next);
    ScanSplit(line, p, pos, i);
    DoneStaysFree(done, line[pos..i], p, field);
    assert done'[|done'| - 1] == field[|field| - 1];
    EscapeHtmlIsPerChar(p);
    EscapeCharsIdentity(p);
    ReplaceStep(done, line[pos..i], line[i + |p|..], p, field);
  }

  /** The bookkeeping side of a turn: the rendering, the pushed blanks and the
      match count all advance past the placeholder. */
  lemma TurnCount(line: string, p: string, placeholders: seq<Placeholder>, pos: nat, i: int,
                  found: seq<Placeholder>, done: string, count: nat,
                  found': seq<Placeholder>, done': string)
    requires |p| > 0 && pos <= |line| && i == IndexOf(line, p, pos) && i != -1
    requires done + RenderFrom(line, p, pos, |found| + 1) == RenderFrom(line, p, 0, |placeholders| + 1)
    requires found == placeholders + Blanks(|placeholders| + 1, count)
    requires count + |MatchesFrom(line, p, pos)| == |MatchesFrom(line, p, 0)|
    requires found' == found + [Placeholder(DecimalString(|found| + 1), Blank)]
    requires done' == done + EscapeChars(line[pos..i]) + InputField(|found| + 1)
    ensures i + |p| <= |line|
    ensures done' + RenderFrom(line, p, i + |p|, |found'| + 1) == RenderFrom(line, p, 0, |placeholders| + 1)
    ensures found' == placeholders + Blanks(|placeholders| + 1, count + 1)
    ensures count + 1 + |MatchesFrom(line, p, i + |p|)| == |MatchesFrom(line, p, 0)|
  {
    TurnRender(line, p, pos, i, done, |found| + 1, done');
    PushBlank(placeholders, count);
    MatchStep(line, p, pos, i);
  }

  /** The processed prefix grows by exactly what the rendering consumes. */
  lemma TurnRender(line: string, p: string, pos: nat, i: int, done: string, next: nat, done': string)
    requires |p| > 0 && pos <= |line| && i == IndexOf(line, p, pos) && i != -1
    requires done' == done + EscapeChars(line[pos..i]) + InputField(next)
    ensures i + |p| <= |line|
    ensures done' + RenderFrom(line, p, i + |p|, next + 1) == done + RenderFrom(line, p, pos, next)
  {
    RenderStep(line, p, pos, i, next);
    ConcatRegroup(done, EscapeChars(line[pos..i]), InputField(next), RenderFrom(line, p, i + |p|, next + 1));
  }

  /** The matches from `pos` are the one at `i` and those after it. */
  lemma MatchStep(line: string, p: string, pos: nat, i: int)
    requires |p| > 0 && i == IndexOf(line, p, pos) && i != -1
    ensures |MatchesFrom(line, p, pos)| == 1 + |MatchesFrom(line, p, i + |p|)|
  {
  }

  /** The `lines.forEach` loop: each line is processed by the scan above and
      appended, wrapped in its numbered div, to `processedCode`. */
  method ProcessFillInTheBlankCode(code: string, p: string)
    returns (processedCode: string, placeholders: seq<Placeholder>)
    requires ValidPlaceholder(p)
    ensures processedCode == Flatten(LineDivs(Split(code, '\n'), p))
    ensures placeholders == Blanks(1, CountBlanks(Split(code, '\n'), p))
  {
    placeholders := [];
    var lineNumber := 1;
    var lines := Split(code, '\n');
    processedCode := "";
    var i := 0;
    assert lines[..0] == [];
    while i < |lines|
      invariant 0 <= i <= |lines| && lineNumber == i + 1
      invariant Processed(lines, p, i, processedCode, placeholders)
    {
      ghost var processedCode0, placeholders0 := processedCode, placeholders;
      var processedLine;
      processedLine, placeholders := ReplacePlaceholders(lines[i], p, placeholders);
      processedCode := processedCode + CodeLine(lineNumber, processedLine);
      lineNumber := lineNumber + 1;
      i := i + 1;
      LineStep(lines, p, i - 1, processedCode0, placeholders0, processedLine, processedCode, placeholders);
    }
    assert lines[..i] == lines;
  }

  /** The invariant of the line loop: the first `i` lines are processed. */
  ghost predicate Processed(lines: seq<string>, p: string, i: nat, processedCode: string, placeholders: seq<Placeholder>)
    requires |p| > 0 && i <= |lines|
  {
    processedCode == Flatten(LineDivs(lines[..i], p)) &&
    placeholders == Blanks(1, CountBlanks(lines[..i], p))
  }

  /** Processing one more line extends the code by its div and the
      placeholders by its blanks. */
  lemma LineStep(lines: seq<string>, p: string, i: nat, processedCode: string, placeholders: seq<Placeholder>,
                 processedLine: string, processedCode': string, placeholders': seq<Placeholder>)
    requires |p| > 0 && i < |lines| && Processed(lines, p, i, processedCode, placeholders)
    requires processedLine == RenderFrom(lines[i], p, 0, |placeholders| + 1)
    requires placeholders' == placeholders + Blanks(|placeholders| + 1, |MatchesFrom(lines[i], p, 0)|)
    requires processedCode' == processedCode + CodeLine(i + 1, processedLine)
    ensures Processed(lines, p, i + 1, processedCode', placeholders')
  {
    BlanksAppend(1, CountBlanks(lines[..i], p), |MatchesFrom(lines[i], p, 0)|);
    assert lines[..i + 1][..i] == lines[..i];
    var div := CodeLine(i + 1, processedLine);
    assert LineDivs(lines[..i + 1], p) == LineDivs(lines[..i], p) + [div];
    FlattenSnoc(LineDivs(lines[..i], p), div);
  }

  // ---------------------------------------------------------------------
  // Lemmas
  // ---------------------------------------------------------------------

  lemma BlanksAppend(first: nat, a: nat, b: nat)
    ensures Blanks(first, a) + Blanks(first + a, b) == Blanks(first, a + b)
  {
    var l, r := Blanks(first, a) + Blanks(first + a, b), Blanks(first, a + b);
    forall j | 0 <= j < a + b ensures l[j] == r[j] {
      if j >= a {
        assert l[j] == Blanks(first + a, b)[j - a];
      }
    }
  }

  /** Pushing the next blank onto the list extends the run of blanks by one. */
  lemma PushBlank(placeholders: seq<Placeholder>, count: nat)
    ensures var first := |placeholders| + 1;
      placeholders + Blanks(first, count) + [Placeholder(DecimalString(first + count), Blank)] ==
      placeholders + Blanks(first, count + 1)
  {
    var first := |placeholders| + 1;
    BlanksAppend(first, count, 1);
    assert Blanks(first + count, 1) == [Placeholder(DecimalString(first + count), Blank)];
  }

  /** The generated ids are pairwise distinct and every expected answer is `___`. */
  lemma BlankIdsDistinct(first: nat, count: nat)
    ensures forall i, j :: 0 <= i < j < count ==> Blanks(first, count)[i].id != Blanks(first, count)[j].id
    ensures forall i :: 0 <= i < count ==> Blanks(first, count)[i].expectedAnswer == Blank
  {
    forall i, j | 0 <= i < j < count
      ensures Blanks(first, count)[i].id != Blanks(first, count)[j].id
    {
      DecimalInjective(first + i, first + j);
    }
  }

  /** A string of ASCII characters holds no placeholder. */
  lemma AsciiNoOccurrence(s: string, p: string)
    requires ValidPlaceholder(p) && AllAscii(s)
    ensures NoOccurrence(s, p)
  {
    forall k | 0 <= k < |s| ensures !OccursAt(s, p, k) {
      if k + |p| <= |s| {
        assert s[k..k + |p|][0] == s[k];
      }
    }
  }

  /** Two placeholder-free strings stay placeholder-free when joined at an
      ASCII character, which no occurrence can cover. */
  lemma ConcatNoOccurrence(a: string, b: string, p: string)
    requires ValidPlaceholder(p)
    requires NoOccurrence(a, p) && NoOccurrence(b, p)
    requires (a != [] && IsAscii(a[|a| - 1])) || (b != [] && IsAscii(b[0])) || a == [] || b == []
    ensures NoOccurrence(a + b, p)
  {
    var t := a + b;
    forall k | 0 <= k < |t| ensures !OccursAt(t, p, k) {
      if k + |p| <= |a| {
        assert k + |p| <= |t| ==> t[k..k + |p|] == a[k..k + |p|];
        assert OccursAt(t, p, k) ==> OccursAt(a, p, k);
      } else if |a| <= k {
        assert k + |p| <= |t| ==> t[k..k + |p|] == b[k - |a|..k - |a| + |p|];
        assert OccursAt(t, p, k) ==> OccursAt(b, p, k - |a|);
      } else if k + |p| <= |t| {
        assert t[k..k + |p|][|a| - 1 - k] == a[|a| - 1];
        assert t[k..k + |p|][|a| - k] == b[0];
      }
    }
  }

  /** Where the scan finds a placeholder at `i`, the line splits around it,
      and no earlier placeholder starts between `pos` and `i`. */
  lemma ScanSplit(line: string, p: string, pos: nat, i: int)
    requires |p| > 0 && pos <= |line| && i == IndexOf(line, p, pos) && i != -1
    ensures line[pos..] == line[pos..i] + p + line[i + |p|..]
    ensures NoOccurrenceBefore(line[pos..i] + p, p, i - pos)
  {
    IndexOfIsLeftmost(line, p, pos);
    var seg := line[pos..i];
    assert line[pos..] == seg + p + line[i + |p|..];
    forall k | 0 <= k < |seg| ensures !OccursAt(seg + p, p, k) {
      assert !OccursAt(line, p, pos + k);
      if k + |p| <= |seg + p| {
        assert (seg + p)[k..k + |p|] == line[pos + k..pos + k + |p|];
      }
    }
  }


  /** The rendering of a line from a found placeholder on. */
  lemma RenderStep(line: string, p: string, pos: nat, i: int, next: nat)
    requires |p| > 0 && pos <= |line| && i == IndexOf(line, p, pos) && i != -1
    ensures RenderFrom(line, p, pos, next) ==
            EscapeChars(line[pos..i]) + InputField(next) + RenderFrom(line, p, i + |p|, next + 1)
  {
    assert RenderFrom(line, p, pos, next) == RenderMatch(line, p, pos, i, next);
  }


  /** Behind a placeholder-free prefix ending in an ASCII character, the
      first occurrence in `u` is also the first one in `a + u + rest`. */
  lemma PrefixKeepsFirstOccurrence(a: string, u: string, rest: string, p: string, j: nat)
    requires ValidPlaceholder(p)
    requires NoOccurrence(a, p) && (a == [] || IsAscii(a[|a| - 1]))
    requires j + |p| <= |u| && NoOccurrenceBefore(u, p, j)
    ensures NoOccurrenceBefore(a + u + rest, p, |a| + j)
  {
    var t := a + u + rest;
    forall k | 0 <= k < |a| + j ensures !OccursAt(t, p, k) {
      if k + |p| <= |a| {
        assert t[k..k + |p|] == a[k..k + |p|];
        assert !OccursAt(a, p, k);
      } else if k < |a| {
        assert t[k..k + |p|][|a| - 1 - k] == a[|a| - 1];
      } else {
        assert t[k..k + |p|] == u[k - |a|..k - |a| + |p|];
        assert !OccursAt(u, p, k - |a|);
      }
    }
  }

  /** One step of the scan: with `done` already processed, the first
      placeholder of the escaped remainder is the one the scan found, so the
      first-occurrence replace puts the input tag exactly there. */
  lemma ReplaceStep(done: string, seg: string, rest: string, p: string, field: string)
    requires ValidPlaceholder(p)
    requires NoOccurrence(done, p) && (done == [] || IsAscii(done[|done| - 1]))
    requires NoOccurrenceBefore(seg + p, p, |seg|)
    ensures ReplaceFirst(done + EscapeChars(seg + p + rest), p, field) ==
            (done + EscapeChars(seg) + field) + EscapeChars(rest)
  {
    var a, er := done + EscapeChars(seg), EscapeChars(rest);
    EscapedAround(done, seg, rest, p);
    ReplaceFirstAt(a, er, p, field);
  }

  /** The escaped remainder splits around the placeholder the scan found,
      and no placeholder starts before it. */
  lemma EscapedAround(done: string, seg: string, rest: string, p: string)
    requires ValidPlaceholder(p)
    requires NoOccurrence(done, p) && (done == [] || IsAscii(done[|done| - 1]))
    requires NoOccurrenceBefore(seg + p, p, |seg|)
    ensures done + EscapeChars(seg + p + rest) == (done + EscapeChars(seg)) + p + EscapeChars(rest)
    ensures NoOccurrenceBefore((done + EscapeChars(seg)) + p + EscapeChars(rest), p, |done + EscapeChars(seg)|)
  {
    var es, er := EscapeChars(seg), EscapeChars(rest);
    EscapedPlaceholderFirst(seg, p);
    EscapeCharsConcat(seg + p, rest);
    FirstAfterPrefix(done, es, er, p);
  }

  /** `PrefixKeepsFirstOccurrence` for a segment followed by the placeholder. */
  lemma FirstAfterPrefix(done: string, seg: string, rest: string, p: string)
    requires ValidPlaceholder(p)
    requires NoOccurrence(done, p) && (done == [] || IsAscii(done[|done| - 1]))
    requires NoOccurrenceBefore(seg + p, p, |seg|)
    ensures done + (seg + p + rest) == (done + seg) + p + rest
    ensures NoOccurrenceBefore((done + seg) + p + rest, p, |done + seg|)
  {
    PrefixKeepsFirstOccurrence(done, seg + p, rest, p, |seg|);
    assert done + (seg + p) + rest == (done + seg) + p + rest;
  }

  /** The escaped segment followed by the placeholder has its first
      placeholder where the raw one had it. */
  lemma EscapedPlaceholderFirst(seg: string, p: string)
    requires ValidPlaceholder(p)
    requires NoOccurrenceBefore(seg + p, p, |seg|)
    ensures EscapeChars(seg + p) == EscapeChars(seg) + p
    ensures NoOccurrenceBefore(EscapeChars(seg) + p, p, |EscapeChars(seg)|)
  {
    EscapeCharsConcat(seg, p);
    EscapeCharsIdentity(p);
    EscapePreservesNoOccurrenceBefore(seg + p, p, |seg|);
    assert (seg + p)[..|seg|] == seg;
  }

  /** The processed part stays free of placeholders after one more step. */
  lemma DoneStaysFree(done: string, seg: string, p: string, field: string)
    requires ValidPlaceholder(p)
    requires NoOccurrence(done, p) && (done == [] || IsAscii(done[|done| - 1]))
    requires NoOccurrenceBefore(seg + p, p, |seg|)
    requires AllAscii(field) && |field| > 0 && IsAscii(field[0]) && IsAscii(field[|field| - 1])
    ensures NoOccurrence(done + EscapeChars(seg) + field, p)
  {
    forall k | 0 <= k < |seg| ensures !OccursAt(seg, p, k) {
      assert !OccursAt(seg + p, p, k);
      if k + |p| <= |seg| {
        OccursAtPrefix(seg, p, p, k);
      }
    }
    EscapePreservesNoOccurrence(seg, p);
    ConcatNoOccurrence(done, EscapeChars(seg), p);
    AsciiNoOccurrence(field, p);
    ConcatNoOccurrence(done + EscapeChars(seg), field, p);
  }

  /** The stretch of the line the scan skips, from `pos` up to the next
      placeholder or the end, stays free of placeholders once escaped. */
  lemma EscapedGapIsFree(line: string, p: string, pos: nat, end: nat)
    requires ValidPlaceholder(p) && pos <= |line|
    requires end == if IndexOf(line, p, pos) == -1 then |line| else IndexOf(line, p, pos)
    ensures pos <= end <= |line| && NoOccurrence(EscapeChars(line[pos..end]), p)
  {
    IndexOfIsLeftmost(line, p, pos);
    var seg := line[pos..end];
    forall k | 0 <= k < |seg| ensures !OccursAt(seg, p, k) {
      assert !OccursAt(line, p, pos + k);
      if k + |p| <= |seg| {
        var u, v := seg[k..k + |p|], line[pos + k..pos + k + |p|];
        forall j | 0 <= j < |p| ensures u[j] == v[j] {
          assert seg[k + j] == line[pos + k + j];
        }
        assert u == v;
      }
    }
    EscapePreservesNoOccurrence(seg, p);
  }

  /** No placeholder text is left in a processed line. */
  lemma {:induction false} NoPlaceholderLeft(line: string, p: string, pos: nat, next: nat)
    requires ValidPlaceholder(p) && pos <= |line|
    ensures NoOccurrence(RenderFrom(line, p, pos, next), p)
    decreases |line| - pos
  {
    var i := IndexOf(line, p, pos);
    if i == -1 {
      EscapedGapIsFree(line, p, pos, |line|);
      assert line[pos..|line|] == line[pos..];
    } else {
      EscapedGapIsFree(line, p, pos, i);
      var field, es := InputField(next), EscapeChars(line[pos..i]);
      NoPlaceholderLeft(line, p, i + |p|, next + 1);
      AsciiNoOccurrence(field, p);
      ConcatNoOccurrence(es, field, p);
      ConcatNoOccurrence(es + field, RenderFrom(line, p, i + |p|, next + 1), p);
    }
  }

  /** No placeholder text is left anywhere in the processed code. */
  lemma {:induction false} NoPlaceholderInOutput(lines: seq<string>, p: string)
    requires ValidPlaceholder(p)
    ensures NoOccurrence(Flatten(LineDivs(lines, p)), p)
    decreases |lines|
  {
    if |lines| > 0 {
      var n := |lines| - 1;
      var prev := LineDivs(lines[..n], p);
      var body := RenderFrom(lines[n], p, 0, CountBlanks(lines[..n], p) + 1);
      var div := CodeLine(n + 1, body);
      assert LineDivs(lines, p) == prev + [div];
      FlattenSnoc(prev, div);
      NoPlaceholderInOutput(lines[..n], p);
      NoPlaceholderLeft(lines[n], p, 0, CountBlanks(lines[..n], p) + 1);
      CodeLineFree(n + 1, body, p);
      ConcatNoOccurrence(Flatten(prev), div, p);
    }
  }

  /** One div per line, in input order: div `k` is line `k` numbered `k + 1`,
      its blanks numbered after those of the lines before it. */
  lemma {:induction false} LineDivsAt(lines: seq<string>, p: string, k: nat)
    requires |p| > 0 && k < |lines|
    ensures |LineDivs(lines, p)| == |lines|
    ensures LineDivs(lines, p)[k] == CodeLine(k + 1, RenderFrom(lines[k], p, 0, CountBlanks(lines[..k], p) + 1))
    decreases |lines|
  {
    var n := |lines| - 1;
    LineDivsSnoc(lines, p);
    if k < n {
      LineDivsAt(lines[..n], p, k);
      PrefixOfPrefix(lines, n, k);
    }
  }

  /** The divs of `lines` are those of all lines but the last, then the last one's. */
  lemma LineDivsSnoc(lines: seq<string>, p: string)
    requires |p| > 0 && |lines| > 0
    ensures var n := |lines| - 1;
      |LineDivs(lines, p)| == |lines| &&
      LineDivs(lines, p)[n] == CodeLine(n + 1, RenderFrom(lines[n], p, 0, CountBlanks(lines[..n], p) + 1)) &&
      forall k :: 0 <= k < n ==> LineDivs(lines, p)[k] == LineDivs(lines[..n], p)[k]
  {
    LineDivsLength(lines[..|lines| - 1], p);
  }

  lemma PrefixOfPrefix<T>(s: seq<T>, n: nat, k: nat)
    requires k < n <= |s|
    ensures s[..n][k] == s[k] && s[..n][..k] == s[..k]
  {
  }

  lemma {:induction false} LineDivsLength(lines: seq<string>, p: string)
    requires |p| > 0
    ensures |LineDivs(lines, p)| == |lines|
    decreases |lines|
  {
    if |lines| > 0 {
      LineDivsLength(lines[..|lines| - 1], p);
    }
  }

  /** A line without placeholders comes out escaped and otherwise unchanged. */
  lemma RenderWithoutPlaceholder(line: string, p: string, next: nat)
    requires |p| > 0 && IndexOf(line, p, 0) == -1
    ensures RenderFrom(line, p, 0, next) == EscapeHtml(line)
  {
    EscapeHtmlIsPerChar(line);
    assert line[0..] == line;
  }

  /** Wrapping a placeholder-free line in its div adds no placeholder. */
  lemma CodeLineFree(lineNumber: nat, body: string, p: string)
    requires ValidPlaceholder(p) && NoOccurrence(body, p)
    ensures NoOccurrence(CodeLine(lineNumber, body), p)
    ensures IsAscii(CodeLine(lineNumber, body)[0])
  {
    var head := CodeLineHead(lineNumber);
    AsciiNoOccurrence(head, p);
    LineTailIsAscii();
    AsciiNoOccurrence(LineTail, p);
    ConcatNoOccurrence(head, body, p);
    ConcatNoOccurrence(head + body, LineTail, p);
  }

  /** Each match of the scan is an occurrence at or after `pos`, and each
      starts at or after the end of the one before: the matches do not overlap. */
  lemma {:induction false} MatchesAreOccurrences(line: string, p: string, pos: nat)
    requires |p| > 0
    ensures forall j :: 0 <= j < |MatchesFrom(line, p, pos)| ==>
              pos <= MatchesFrom(line, p, pos)[j] && OccursAt(line, p, MatchesFrom(line, p, pos)[j])
    ensures forall j :: 0 < j < |MatchesFrom(line, p, pos)| ==>
              MatchesFrom(line, p, pos)[j - 1] + |p| <= MatchesFrom(line, p, pos)[j]
    decreases |line| - pos
  {
    var i := IndexOf(line, p, pos);
    IndexOfIsLeftmost(line, p, pos);
    if i != -1 {
      var ms, tail := MatchesFrom(line, p, pos), MatchesFrom(line, p, i + |p|);
      MatchesAreOccurrences(line, p, i + |p|);
      assert ms == [i] + tail;
      assert forall j :: 0 < j < |ms| ==> ms[j] == tail[j - 1];
    }
  }

  /** The scan misses no placeholder: every occurrence at or after `pos`
      starts inside one of the matches (with `MatchesAreOccurrences`, the
      matches are the leftmost-first non-overlapping occurrences). */
  lemma {:induction false} MatchesCoverOccurrences(line: string, p: string, pos: nat, k: nat)
    requires |p| > 0
    ensures pos <= k && OccursAt(line, p, k) ==>
              exists j :: 0 <= j < |MatchesFrom(line, p, pos)| &&
                MatchesFrom(line, p, pos)[j] <= k < MatchesFrom(line, p, pos)[j] + |p|
    decreases |line| - pos
  {
    var i := IndexOf(line, p, pos);
    IndexOfIsLeftmost(line, p, pos);
    if i != -1 && pos <= k && OccursAt(line, p, k) {
      var ms, tail := MatchesFrom(line, p, pos), MatchesFrom(line, p, i + |p|);
      assert ms == [i] + tail;
      if k < i + |p| {
        assert ms[0] <= k < ms[0] + |p|;
      } else {
        MatchesCoverOccurrences(line, p, i + |p|, k);
        var j :| 0 <= j < |tail| && tail[j] <= k < tail[j] + |p|;
        assert ms[j + 1] == tail[j];
      }
    }
  }
}
