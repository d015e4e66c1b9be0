/** `apply_edits` of scripts/format-staged.py against the Language Server Protocol 3.17: sections "Position"
    and "TextEdit[]", with the protocol's own line ends. */
module ProtocolEdits {
  import opened Substitution
  import opened TextEdits

  // ---------------------------------------------------------------- the lines of the protocol

  /** Section "Text Documents": the line ends are "\n", "\r\n" and "\r". */
  predicate IsEol(c: char) {
    c == '\n' || c == '\r'
  }

  /** Python ends lines at more characters than the protocol. */
  predicate OnlyPython(c: char) {
    IsBreak(c) && !IsEol(c)
  }

  /** Length of the line end that closes a line; 0 when it has none. */
  function EolLength(line: string): (n: nat)
    ensures n <= |line| && (n > 0 <==> line != "" && IsEol(line[|line| - 1]))
  {
    if |line| >= 2 && line[|line| - 2] == '\r' && line[|line| - 1] == '\n' then 2
    else if line != "" && IsEol(line[|line| - 1]) then 1
    else 0
  }

  /** Length of the first line, line end included. */
  function ProtocolFirst(t: string): (m: nat)
    requires t != ""
    ensures 1 <= m <= |t|
    ensures m < |t| ==> IsEol(t[m - 1])
    ensures !IsEol(t[m - 1]) ==> forall k :: 0 <= k < |t| ==> !IsEol(t[k])
  {
    if |t| > 1 && t[0] == '\r' && t[1] == '\n' then 2
    else if |t| == 1 || IsEol(t[0]) then 1
    else 1 + ProtocolFirst(t[1..])
  }

  function ProtocolLines(t: string): seq<string> {
    if t == "" then [] else
      var m := ProtocolFirst(t);
      [t[..m]] + ProtocolLines(t[m..])
  }

  /** No line is empty and every line but the last one is ended. */
  predicate EndedLines(lines: seq<string>) {
    && (forall i :: 0 <= i < |lines| ==> lines[i] != "")
    && (forall i :: 0 <= i < |lines| - 1 ==> EolLength(lines[i]) > 0)
  }

  lemma {:induction false} ProtocolPartition(t: string)
    ensures Flatten(ProtocolLines(t)) == t && EndedLines(ProtocolLines(t)) && Size(ProtocolLines(t)) == |t|
  {
    if t != "" {
      var m := ProtocolFirst(t);
      ProtocolPartition(t[m..]);
      ProtocolPrepend(t[..m], ProtocolLines(t[m..]));
      assert t[..m] + t[m..] == t;
    }
    FlattenLength(ProtocolLines(t));
  }

  lemma ProtocolPrepend(line: string, rest: seq<string>)
    requires EndedLines(rest) && line != "" && (rest != [] ==> EolLength(line) > 0)
    ensures EndedLines([line] + rest) && Flatten([line] + rest) == line + Flatten(rest)
  {
    assert ([line] + rest)[1..] == rest;
  }

  /** The protocol's lines are the one list of lines that make up the text and are cut behind "\n", "\r\n" and
      "\r" and nowhere else. */
  lemma ProtocolLinesExactly(t: string, lines: seq<string>)
    ensures lines == ProtocolLines(t) <==> Flatten(lines) == t && CutBehind({'\n', '\r'}, lines)
  {
    var ends := {'\n', '\r'};
    ProtocolPartition(t);
    ProtocolCut(ends, t);
    if Flatten(lines) == t && CutBehind(ends, lines) {
      UniqueCut(ends, lines, ProtocolLines(t));
    }
  }

  lemma {:induction false} ProtocolCut(ends: set<char>, t: string)
    requires forall c: char :: IsEol(c) <==> c in ends
    ensures CutBehind(ends, ProtocolLines(t))
  {
    if t != "" {
      var m := ProtocolFirst(t);
      ProtocolFirstCut(ends, t);
      ProtocolCut(ends, t[m..]);
      CutPrepend(ends, t[..m], ProtocolLines(t[m..]));
    }
  }

  lemma {:induction false} ProtocolFirstCut(ends: set<char>, t: string)
    requires t != "" && forall c: char :: IsEol(c) <==> c in ends
    ensures OneLine(ends, t[..ProtocolFirst(t)])
    ensures ProtocolFirst(t) < |t| ==> EndedBefore(ends, t[..ProtocolFirst(t)], t[ProtocolFirst(t)..])
  {
    if !(|t| > 1 && t[0] == '\r' && t[1] == '\n') && |t| > 1 && !IsEol(t[0]) {
      ProtocolFirstCut(ends, t[1..]);
      var m := ProtocolFirst(t[1..]);
      CutLonger(ends, t[0], t[1..][..m], t[..m + 1]);
    }
  }

  /** The text ends with a line end, or is empty: behind its lines there is an empty one. */
  predicate Closed(lines: seq<string>) {
    lines == [] || EolLength(lines[|lines| - 1]) > 0
  }

  // ---------------------------------------------------------------- positions

  /** The position names a line of the document. */
  predicate OnALine(lines: seq<string>, pos: Position) {
    pos.line < |lines| || (pos.line == |lines| && Closed(lines))
  }

  function Content(lines: seq<string>, line: nat): nat {
    if line < |lines| then |lines[line]| - EolLength(lines[line]) else 0
  }

  /** A line is its content, which holds no line end, and one line end or none. */
  lemma ContentExactly(t: string, k: nat)
    requires k < |ProtocolLines(t)|
    ensures var line, n := ProtocolLines(t)[k], Content(ProtocolLines(t), k);
            && n <= |line|
            && (forall i :: 0 <= i < n ==> line[i] != '\n' && line[i] != '\r')
            && (line[n..] == "" || line[n..] == "\n" || line[n..] == "\r" || line[n..] == "\r\n")
  {
    ProtocolCut({'\n', '\r'}, t);
    assert OneLine({'\n', '\r'}, ProtocolLines(t)[k]);
    ContentOf(ProtocolLines(t)[k]);
  }

  lemma ContentOf(line: string)
    requires OneLine({'\n', '\r'}, line)
    ensures var n := |line| - EolLength(line);
            && (forall i :: 0 <= i < n ==> line[i] != '\n' && line[i] != '\r')
            && (line[n..] == "" || line[n..] == "\n" || line[n..] == "\r" || line[n..] == "\r\n")
  {
    var n, ends := |line| - EolLength(line), {'\n', '\r'};
    forall i | 0 <= i < n
      ensures line[i] != '\n' && line[i] != '\r'
    {
      assert line[i] in ends <==> line[i] == '\n' || line[i] == '\r';
    }
  }

  /** Section "Position": a character past the length of its line, line end excluded, means that length.
      (The protocol says nothing of positions on no line; the end of the document stands for them.) */
  function StandardOffset(lines: seq<string>, pos: Position): nat {
    if OnALine(lines, pos) then LineStart(lines, pos.line) + Min(pos.character, Content(lines, pos.line))
    else Size(lines)
  }

  predicate Proper(lines: seq<string>, pos: Position) {
    OnALine(lines, pos) && pos.character <= Content(lines, pos.line)
  }

  /** What `apply_edits` takes a position of a text to be. */
  function CodeOffset(text: string, pos: Position): nat {
    Offset(LineTable(SplitLines(text)), |text|, pos)
  }

  /** A line end of the protocol behind one of Python's own: the two count lines differently. */
  predicate LinesDiffer(t: string) {
    exists i, j :: 0 <= i < j < |t| && OnlyPython(t[i]) && IsEol(t[j])
  }

  lemma {:induction false} FirstBreak(t: string)
    requires t != ""
    ensures FirstLine(t) <= ProtocolFirst(t)
    ensures FirstLine(t) < ProtocolFirst(t) ==> OnlyPython(t[FirstLine(t) - 1])
    ensures forall k :: 0 <= k < FirstLine(t) - 1 ==> !OnlyPython(t[k])
  {
    if !(|t| > 1 && t[0] == '\r' && t[1] == '\n') && |t| > 1 && !IsBreak(t[0]) {
      FirstBreak(t[1..]);
    }
  }

  lemma DifferBehind(t: string, m: nat)
    requires m <= |t|
    ensures LinesDiffer(t[m..]) ==> LinesDiffer(t)
  {
    if LinesDiffer(t[m..]) {
      var i, j :| 0 <= i < j < |t[m..]| && OnlyPython(t[m..][i]) && IsEol(t[m..][j]);
      assert OnlyPython(t[m + i]) && IsEol(t[m + j]);
    }
  }

  lemma DifferWithin(t: string, n: nat)
    requires n <= |t|
    ensures LinesDiffer(t[..n]) ==> LinesDiffer(t)
  {
    if LinesDiffer(t[..n]) {
      var i, j :| 0 <= i < j < n && OnlyPython(t[..n][i]) && IsEol(t[..n][j]);
      assert OnlyPython(t[i]) && IsEol(t[j]);
    }
  }

  /** A line that the protocol ends is a line of Python's, unless the two differ up to there. */
  lemma SameFirst(t: string, n: nat)
    requires t != "" && IsEol(t[ProtocolFirst(t) - 1]) && ProtocolFirst(t) <= n <= |t| && !LinesDiffer(t[..n])
    ensures FirstLine(t) == ProtocolFirst(t)
  {
    FirstBreak(t);
    if FirstLine(t) < ProtocolFirst(t) {
      DiffersAt(t, n, FirstLine(t) - 1, ProtocolFirst(t) - 1);
    }
  }

  lemma DiffersAt(t: string, n: nat, i: nat, j: nat)
    requires i < j < n <= |t| && OnlyPython(t[i]) && IsEol(t[j])
    ensures LinesDiffer(t[..n])
  {
    assert OnlyPython(t[..n][i]) && IsEol(t[..n][j]);
  }

  /** The line exists, and no line end of the protocol in front of it follows one that only Python knows. */
  predicate CountedAlike(text: string, line: nat) {
    var lines := ProtocolLines(text);
    && OnALine(lines, Position(line, 0))
    && LineStart(lines, line) <= |text|
    && !LinesDiffer(text[..LineStart(lines, line)])
  }

  /** Lines that do not differ in front of a line leave it where it is. */
  lemma {:induction false} StartsAgree(t: string, k: nat)
    requires CountedAlike(t, k)
    ensures k <= |SplitLines(t)| && LineStart(SplitLines(t), k) == LineStart(ProtocolLines(t), k)
    decreases k
  {
    if k > 0 {
      var m, n := ProtocolFirst(t), LineStart(ProtocolLines(t), k);
      ProtocolTail(t, k);
      FirstEnded(t, k);
      SameFirst(t, n);
      AgreeBehind(t, m, n);
      StartsAgree(t[m..], k - 1);
      CodeTail(t, k);
    }
  }

  lemma ProtocolTail(t: string, k: nat)
    requires t != "" && 1 <= k <= |ProtocolLines(t)|
    ensures var m := ProtocolFirst(t);
            && LineStart(ProtocolLines(t), k) == m + LineStart(ProtocolLines(t[m..]), k - 1)
            && ProtocolLines(t) == [t[..m]] + ProtocolLines(t[m..])
  {
    assert ProtocolLines(t)[1..] == ProtocolLines(t[ProtocolFirst(t)..]);
    LineStartTail(ProtocolLines(t), k);
  }

  lemma CodeTail(t: string, k: nat)
    requires t != "" && 1 <= k <= |SplitLines(t)|
    ensures LineStart(SplitLines(t), k) == FirstLine(t) + LineStart(SplitLines(t[FirstLine(t)..]), k - 1)
  {
    assert SplitLines(t)[1..] == SplitLines(t[FirstLine(t)..]);
    LineStartTail(SplitLines(t), k);
  }

  /** Behind the first line there is another one only if it is ended. */
  lemma FirstEnded(t: string, k: nat)
    requires k > 0 && OnALine(ProtocolLines(t), Position(k, 0)) && t != ""
    ensures IsEol(t[ProtocolFirst(t) - 1])
    ensures OnALine(ProtocolLines(t[ProtocolFirst(t)..]), Position(k - 1, 0))
  {
    var m := ProtocolFirst(t);
    var rest := ProtocolLines(t[m..]);
    assert ProtocolLines(t) == [t[..m]] + rest;
    assert t[..m][m - 1] == t[m - 1];
  }

  lemma AgreeBehind(t: string, m: nat, n: nat)
    requires m <= n <= |t| && !LinesDiffer(t[..n])
    ensures !LinesDiffer(t[m..][..n - m])
  {
    assert t[..n][m..] == t[m..][..n - m];
    DifferBehind(t[..n], m);
  }

  lemma AlikeThroughout(text: string, pos: Position)
    requires !LinesDiffer(text) && OnALine(ProtocolLines(text), pos)
    ensures CountedAlike(text, pos.line)
  {
    var lines := ProtocolLines(text);
    ProtocolPartition(text);
    LineStartsIncrease(lines, pos.line, |lines|);
    DifferWithin(text, LineStart(lines, pos.line));
  }

  /** On such a line, `offset` finds the line and clamps at the end of the text only. */
  lemma CodeOffsetOnLine(text: string, pos: Position)
    requires CountedAlike(text, pos.line)
    ensures pos.line <= |SplitLines(text)|
    ensures LineStart(SplitLines(text), pos.line) == LineStart(ProtocolLines(text), pos.line)
    ensures CodeOffset(text, pos) == Min(LineStart(ProtocolLines(text), pos.line) + pos.character, |text|)
  {
    StartsAgree(text, pos.line);
    OffsetOnLine(SplitLines(text), |text|, pos, LineStart(ProtocolLines(text), pos.line));
  }

  lemma OffsetOnLine(lines: seq<string>, size: nat, pos: Position, start: nat)
    requires pos.line <= |lines| && LineStart(lines, pos.line) == start
    ensures Offset(LineTable(lines), size, pos) == Min(start + pos.character, size)
  {
    var table := LineTable(lines);
    TableAt(lines, |lines|, pos.line);
    OffsetAt(table, size, pos, start);
  }

  lemma OffsetAt(table: seq<nat>, size: nat, pos: Position, start: nat)
    requires pos.line < |table| && table[pos.line] == start
    ensures Offset(table, size, pos) == Min(start + pos.character, size)
  {
  }

  /** Where a line of the protocol begins, ends and meets the next. */
  lemma LineWithin(text: string, k: nat)
    requires k < |ProtocolLines(text)|
    ensures var lines := ProtocolLines(text);
            && LineStart(lines, k) + |lines[k]| <= |text|
            && (EolLength(lines[k]) == 0 ==> LineStart(lines, k) + |lines[k]| == |text|)
  {
    ProtocolPartition(text);
    EndedWithin(ProtocolLines(text), k);
  }

  lemma EndedWithin(lines: seq<string>, k: nat)
    requires k < |lines| && EndedLines(lines)
    ensures LineStart(lines, k) + |lines[k]| <= Size(lines)
    ensures EolLength(lines[k]) == 0 ==> LineStart(lines, k) + |lines[k]| == Size(lines)
  {
    LineStartsIncrease(lines, k, |lines|);
  }

  /** On a line in front of which the lines do not differ, `offset` is what section "Position" asks if and
      only if the character does not lie past the line's content, or no line end follows that content:
      `offset` does not clamp a character to its line. */
  lemma OffsetMeetsStandard(text: string, pos: Position)
    requires CountedAlike(text, pos.line)
    ensures var lines := ProtocolLines(text);
            CodeOffset(text, pos) == StandardOffset(lines, pos) <==>
            || pos.character <= Content(lines, pos.line)
            || pos.line == |lines|
            || EolLength(lines[pos.line]) == 0
  {
    var lines := ProtocolLines(text);
    var clamped := Min(LineStart(lines, pos.line) + pos.character, |text|);
    assert CodeOffset(text, pos) == clamped by {
      CodeOffsetOnLine(text, pos);
    }
    if pos.line < |lines| {
      ClampedOnLine(text, pos);
    } else {
      assert StandardOffset(lines, pos) == |text| == clamped by {
        ProtocolPartition(text);
      }
    }
  }

  lemma ClampedOnLine(text: string, pos: Position)
    requires pos.line < |ProtocolLines(text)|
    ensures var lines := ProtocolLines(text);
            Min(LineStart(lines, pos.line) + pos.character, |text|) == StandardOffset(lines, pos) <==>
            pos.character <= Content(lines, pos.line) || EolLength(lines[pos.line]) == 0
  {
    var lines := ProtocolLines(text);
    LineWithin(text, pos.line);
    ClampedTo(LineStart(lines, pos.line), |lines[pos.line]|, EolLength(lines[pos.line]), |text|, pos.character);
  }

  lemma ClampedTo(start: nat, length: nat, eol: nat, size: nat, character: nat)
    requires eol <= length && start + length <= size && (eol == 0 ==> start + length == size)
    ensures Min(start + character, size) == start + Min(character, length - eol) <==>
            character <= length - eol || eol == 0
  {
  }

  /** Proper positions are ordered like their offsets. */
  lemma StandardIncreases(text: string, p: Position, q: Position)
    requires Proper(ProtocolLines(text), p) && Proper(ProtocolLines(text), q) && Before(p, q)
    ensures StandardOffset(ProtocolLines(text), p) < StandardOffset(ProtocolLines(text), q)
  {
    ProtocolPartition(text);
    EndedIncreases(ProtocolLines(text), p, q);
  }

  lemma EndedIncreases(lines: seq<string>, p: Position, q: Position)
    requires EndedLines(lines) && Proper(lines, p) && Proper(lines, q) && Before(p, q)
    ensures StandardOffset(lines, p) < StandardOffset(lines, q)
  {
    if p.line < q.line {
      LineStartsIncrease(lines, p.line, q.line);
      assert EolLength(lines[p.line]) > 0;
    }
  }

  /** Where the lines differ, some proper position is taken for another. */
  lemma {:induction false} LineMissed(t: string, i: nat, j: nat) returns (pos: Position)
    requires i < j < |t| && OnlyPython(t[i]) && IsEol(t[j])
    ensures Proper(ProtocolLines(t), pos) && CodeOffset(t, pos) != StandardOffset(ProtocolLines(t), pos)
    decreases |t|
  {
    var m := ProtocolFirst(t);
    assert t[..m][m - 1] == t[m - 1];
    FirstBreak(t);
    if FirstLine(t) < m {
      pos := Position(1, 0);
      FirstMissed(t, m);
    } else {
      var later := LineMissed(t[m..], i - m, j - m);
      pos := Position(later.line + 1, later.character);
      MissedBehind(t, m, later);
    }
  }

  /** The second line begins too early. */
  lemma FirstMissed(t: string, m: nat)
    requires t != "" && m == ProtocolFirst(t) && EolLength(t[..m]) > 0 && FirstLine(t) < m
    ensures var pos := Position(1, 0);
            && Proper(ProtocolLines(t), pos)
            && CodeOffset(t, pos) == FirstLine(t) && StandardOffset(ProtocolLines(t), pos) == m
  {
    LineStartTail(ProtocolLines(t), 1);
    LineStartTail(SplitLines(t), 1);
    TableAt(SplitLines(t), |SplitLines(t)|, 1);
  }

  lemma MissedBehind(t: string, m: nat, pos: Position)
    requires t != "" && m == FirstLine(t) == ProtocolFirst(t) && EolLength(t[..m]) > 0
    requires Proper(ProtocolLines(t[m..]), pos)
    ensures var next := Position(pos.line + 1, pos.character);
            && Proper(ProtocolLines(t), next)
            && StandardOffset(ProtocolLines(t), next) == m + StandardOffset(ProtocolLines(t[m..]), pos)
            && CodeOffset(t, next) == m + CodeOffset(t[m..], pos)
  {
    assert ProtocolLines(t)[1..] == ProtocolLines(t[m..]);
    StandardBehind(ProtocolLines(t), pos);
    assert SplitLines(t)[1..] == SplitLines(t[m..]);
    SplitLinesSize(t);
    SplitLinesSize(t[m..]);
    CodeBehind(SplitLines(t), pos);
  }

  lemma StandardBehind(lines: seq<string>, pos: Position)
    requires lines != [] && EolLength(lines[0]) > 0 && Proper(lines[1..], pos)
    ensures var next := Position(pos.line + 1, pos.character);
            Proper(lines, next) && StandardOffset(lines, next) == |lines[0]| + StandardOffset(lines[1..], pos)
  {
    LineStartTail(lines, pos.line + 1);
  }

  lemma CodeBehind(lines: seq<string>, pos: Position)
    requires lines != []
    ensures Offset(LineTable(lines), Size(lines), Position(pos.line + 1, pos.character)) ==
            |lines[0]| + Offset(LineTable(lines[1..]), Size(lines[1..]), pos)
  {
    LineStartTail(lines, |lines|);
    if pos.line < |lines| {
      LineStartTail(lines, pos.line + 1);
      TableAt(lines, |lines|, pos.line + 1);
      TableAt(lines[1..], |lines| - 1, pos.line);
    }
  }

  /** `offset` finds every proper position of a text if and only if the lines agree. */
  lemma ProperOffsets(text: string)
    ensures (forall pos :: Proper(ProtocolLines(text), pos) ==>
               CodeOffset(text, pos) == StandardOffset(ProtocolLines(text), pos)) <==> !LinesDiffer(text)
  {
    if LinesDiffer(text) {
      var i, j :| 0 <= i < j < |text| && OnlyPython(text[i]) && IsEol(text[j]);
      var pos := LineMissed(text, i, j);
    } else {
      forall pos | Proper(ProtocolLines(text), pos)
        ensures CodeOffset(text, pos) == StandardOffset(ProtocolLines(text), pos)
      {
        AlikeThroughout(text, pos);
        OffsetMeetsStandard(text, pos);
      }
    }
  }

  // ---------------------------------------------------------------- edits

  /** The spans that the protocol takes edits to name. */
  function ProtocolSpans(text: string, edits: seq<Edit>): (r: seq<Span>)
    ensures |r| == |edits|
    ensures forall i :: 0 <= i < |r| ==>
              r[i] == Span(StandardOffset(ProtocolLines(text), edits[i].start),
                           StandardOffset(ProtocolLines(text), edits[i].end), edits[i].newText)
  {
    seq(|edits|, i requires 0 <= i < |edits| =>
      Span(StandardOffset(ProtocolLines(text), edits[i].start),
           StandardOffset(ProtocolLines(text), edits[i].end), edits[i].newText))
  }

  /** Edits at proper positions that the protocol allows. */
  predicate ProperEdits(text: string, edits: seq<Edit>) {
    && Legal(|text|, ProtocolSpans(text, edits))
    && forall i :: 0 <= i < |edits| ==>
         Proper(ProtocolLines(text), edits[i].start) && Proper(ProtocolLines(text), edits[i].end)
  }

  predicate DistinctPositions(edits: seq<Edit>) {
    forall i, j :: 0 <= i < j < |edits| ==> edits[i].start != edits[j].start
  }

  /** The document is what section "TextEdit[]" asks for. */
  ghost predicate MeetsStandard(text: string, edits: seq<Edit>) {
    Apply(text, edits) == Standard(text, ProtocolSpans(text, edits))
  }

  lemma ProperPlaced(text: string, pos: Position)
    requires !LinesDiffer(text) && Proper(ProtocolLines(text), pos)
    ensures Placed(SplitLines(text), pos)
    ensures CodeOffset(text, pos) == StandardOffset(ProtocolLines(text), pos)
  {
    AlikeThroughout(text, pos);
    CodeOffsetOnLine(text, pos);
    OffsetMeetsStandard(text, pos);
    ProtocolPartition(text);
    SplitLinesSize(text);
    if pos.line < |ProtocolLines(text)| {
      LineWithin(text, pos.line);
    }
  }

  lemma ProperOrder(text: string, p: Position, q: Position)
    requires Proper(ProtocolLines(text), p) && Proper(ProtocolLines(text), q)
    ensures Before(p, q) <==> StandardOffset(ProtocolLines(text), p) < StandardOffset(ProtocolLines(text), q)
  {
    if Before(p, q) {
      StandardIncreases(text, p, q);
    } else if Before(q, p) {
      StandardIncreases(text, q, p);
    }
  }

  /** Where the lines agree, proper edits name the spans the protocol means, and the loop can do with them. */
  lemma ProperRegular(text: string, edits: seq<Edit>)
    requires ProperEdits(text, edits) && !LinesDiffer(text)
    ensures SpansOf(text, edits) == ProtocolSpans(text, edits) && Regular(text, edits)
    ensures DistinctStarts(SpansOf(text, edits)) <==> DistinctPositions(edits)
  {
    forall i | 0 <= i < |edits|
      ensures Placed(SplitLines(text), edits[i].start) && Placed(SplitLines(text), edits[i].end)
      ensures SpansOf(text, edits)[i] == ProtocolSpans(text, edits)[i]
    {
      ProperPlaced(text, edits[i].start);
      ProperPlaced(text, edits[i].end);
    }
    forall i, j | 0 <= i < |edits| && 0 <= j < |edits|
      ensures Before(edits[i].start, edits[j].start) <==>
              CodeOffset(text, edits[i].start) < CodeOffset(text, edits[j].start)
      ensures edits[i].start == edits[j].start <==>
              SpansOf(text, edits)[i].start == SpansOf(text, edits)[j].start
    {
      ProperPlaced(text, edits[i].start);
      ProperPlaced(text, edits[j].start);
      ProperOrder(text, edits[i].start, edits[j].start);
      ProperOrder(text, edits[j].start, edits[i].start);
    }
  }

  function Retext(edits: seq<Edit>, texts: seq<string>): (r: seq<Edit>)
    requires |texts| == |edits|
    ensures |r| == |edits|
    ensures forall i :: 0 <= i < |r| ==> r[i] == Edit(edits[i].start, edits[i].end, texts[i])
  {
    seq(|edits|, i requires 0 <= i < |edits| => Edit(edits[i].start, edits[i].end, texts[i]))
  }

  /** New texts do not change what is proper. */
  lemma RetextProper(text: string, edits: seq<Edit>, texts: seq<string>)
    requires |texts| == |edits| && ProperEdits(text, edits)
    ensures ProtocolSpans(text, Retext(edits, texts)) == WithTexts(ProtocolSpans(text, edits), texts)
    ensures ProperEdits(text, Retext(edits, texts))
    ensures DistinctPositions(edits) ==> DistinctPositions(Retext(edits, texts))
  {
    var spans, later := ProtocolSpans(text, edits), ProtocolSpans(text, Retext(edits, texts));
    assert later == WithTexts(spans, texts);
    forall i, j | 0 <= i < j < |later|
      ensures Precedes(later[i], later[j])
    {
      assert Precedes(spans[i], spans[j]);
    }
  }

  /** Proper edits with distinct starts meet the standard. */
  lemma DistinctMeets(text: string, edits: seq<Edit>)
    requires ProperEdits(text, edits) && !LinesDiffer(text) && DistinctPositions(edits)
    ensures MeetsStandard(text, edits)
  {
    ProperRegular(text, edits);
    ApplyRunsSpans(text, edits);
    DistinctMeetsStandard(text, SpansOf(text, edits));
  }

  lemma TieMisses(text: string, edits: seq<Edit>) returns (texts: seq<string>)
    requires ProperEdits(text, edits) && !LinesDiffer(text) && !DistinctPositions(edits)
    ensures |texts| == |edits| && !MeetsStandard(text, Retext(edits, texts))
  {
    ProperRegular(text, edits);
    texts := TieFails(text, SpansOf(text, edits));
    RetextProper(text, edits, texts);
    ProperRegular(text, Retext(edits, texts));
    ApplyRunsSpans(text, Retext(edits, texts));
  }

  /** The standard lets edits share a start and orders their texts by the list. The loop does so
      for every choice of new texts exactly if no two edits share their start. */
  lemma MeetsStandardForAllTexts(text: string, edits: seq<Edit>)
    requires ProperEdits(text, edits) && !LinesDiffer(text)
    ensures (forall texts: seq<string> | |texts| == |edits| :: MeetsStandard(text, Retext(edits, texts))) <==>
            DistinctPositions(edits)
  {
    if DistinctPositions(edits) {
      forall texts: seq<string> | |texts| == |edits|
        ensures MeetsStandard(text, Retext(edits, texts))
      {
        RetextProper(text, edits, texts);
        DistinctMeets(text, Retext(edits, texts));
      }
    } else {
      var texts := TieMisses(text, edits);
    }
  }

  // ---------------------------------------------------------------- texts whose lines differ

  /** An insertion at a position that is taken for another one goes wrong. */
  lemma InsertMisses(text: string, pos: Position) returns (edits: seq<Edit>)
    requires Proper(ProtocolLines(text), pos) && CodeOffset(text, pos) != StandardOffset(ProtocolLines(text), pos)
    ensures ProperEdits(text, edits) && DistinctPositions(edits) && !MeetsStandard(text, edits)
  {
    var o, s := CodeOffset(text, pos), StandardOffset(ProtocolLines(text), pos);
    ProtocolPartition(text);
    if pos.line < |ProtocolLines(text)| {
      LineWithin(text, pos.line);
    }
    var n := if text[Min(o, s)] == 'x' then "y" else "x";
    var e := Edit(pos, pos, n);
    edits := [e];
    OneApplied(text, e);
    OneProtocolSpan(text, e);
    OneSpan(text, ProtocolSpans(text, edits), Span(s, s, n));
    InsertsDiffer(text, o, s, n);
  }

  lemma InsertsDiffer(text: string, o: nat, s: nat, n: string)
    requires o <= |text| && s <= |text| && o != s && n != "" && n[0] != text[Min(o, s)]
    ensures Splice(text, Span(o, o, n)) != Splice(text, Span(s, s, n))
  {
    var a, b, k := Splice(text, Span(o, o, n)), Splice(text, Span(s, s, n)), Min(o, s);
    assert a[k] == (if o < s then n[0] else text[k]) && b[k] == (if o < s then text[k] else n[0]);
  }

  lemma OneProtocolSpan(text: string, e: Edit)
    ensures var lines := ProtocolLines(text);
            ProtocolSpans(text, [e]) == [Span(StandardOffset(lines, e.start), StandardOffset(lines, e.end), e.newText)]
  {
  }

  lemma OneApplied(text: string, e: Edit)
    ensures Apply(text, [e]) == Splice(text, ToSpan(LineTable(SplitLines(text)), |text|, e))
  {
    var table := LineTable(SplitLines(text));
    assert SortDescending([e]) == [e];
    assert Rewrite(table, text, [e]) == Rewrite(table, Splice(text, ToSpan(table, |text|, e)), []);
  }

  lemma OneSpan(text: string, spans: seq<Span>, span: Span)
    requires spans == [span] && span.start <= span.end <= |text|
    ensures Legal(|text|, spans) && Standard(text, spans) == Splice(text, span)
  {
    DistinctMeetsStandard(text, spans);
    assert spans[1..] == [];
    assert Run(text, spans) == Run(Splice(text, span), []);
  }

  /** An edit from the start of the document to its end, or to anywhere behind it, leaves its new text. */
  lemma WholeDocument(text: string, end: Position, newText: string)
    requires var lines := SplitLines(text);
             || end.line >= |lines|
             || (end.line == |lines| - 1 && end.character >= |lines[end.line]|)
    ensures Apply(text, [Edit(Position(0, 0), end, newText)]) == newText
  {
    var lines, e := SplitLines(text), Edit(Position(0, 0), end, newText);
    SplitLinesSize(text);
    TableAt(lines, |lines|, 0);
    if end.line <= |lines| {
      TableAt(lines, |lines|, end.line);
    }
    OneApplied(text, e);
    assert ToSpan(LineTable(lines), |text|, e) == Span(0, |text|, newText);
  }

  lemma DifferLiterally(text: string)
    ensures !LinesDiffer(text) <==>
            forall i, j :: 0 <= i < j < |text| && text[j] in {'\n', '\r'} ==>
              text[i] !in {'\U{0B}', '\U{0C}', '\U{1C}', '\U{1D}', '\U{1E}', '\U{85}', '\U{2028}', '\U{2029}'}
  {
    var own := {'\U{0B}', '\U{0C}', '\U{1C}', '\U{1D}', '\U{1E}', '\U{85}', '\U{2028}', '\U{2029}'};
    forall c: char
      ensures OnlyPython(c) <==> c in own
      ensures IsEol(c) <==> c in {'\n', '\r'}
    {
    }
    DifferThrough(text, own, {'\n', '\r'});
  }

  lemma DifferThrough(text: string, own: set<char>, ends: set<char>)
    requires forall c: char :: (OnlyPython(c) <==> c in own) && (IsEol(c) <==> c in ends)
    ensures !LinesDiffer(text) <==> forall i, j :: 0 <= i < j < |text| && text[j] in ends ==> text[i] !in own
  {
  }

  /** `apply_edits` meets the standard for all proper edits with distinct starts if and only if the text
      has no "\n" or "\r" behind one of the eight characters at which only Python ends a line. */
  lemma MeetsStandardForAllEdits(text: string)
    ensures (forall edits | ProperEdits(text, edits) && DistinctPositions(edits) :: MeetsStandard(text, edits)) <==>
            forall i, j :: 0 <= i < j < |text| && text[j] in {'\n', '\r'} ==>
              text[i] !in {'\U{0B}', '\U{0C}', '\U{1C}', '\U{1D}', '\U{1E}', '\U{85}', '\U{2028}', '\U{2029}'}
  {
    DifferLiterally(text);
    if LinesDiffer(text) {
      var i, j :| 0 <= i < j < |text| && OnlyPython(text[i]) && IsEol(text[j]);
      var pos := LineMissed(text, i, j);
      var edits := InsertMisses(text, pos);
    } else {
      forall edits | ProperEdits(text, edits) && DistinctPositions(edits)
        ensures MeetsStandard(text, edits)
      {
        DistinctMeets(text, edits);
      }
    }
  }

  /** Texts of tabs, line ends and the printable characters of ASCII: whatever proper edits with distinct starts
      a server names, the document is what section "TextEdit[]" asks for. */
  lemma PlainTextsMeet(text: string, edits: seq<Edit>)
    requires forall k :: 0 <= k < |text| ==>
               text[k] == '\t' || text[k] == '\n' || text[k] == '\r' || ' ' <= text[k] <= '~'
    requires ProperEdits(text, edits) && DistinctPositions(edits)
    ensures MeetsStandard(text, edits)
  {
    forall k | 0 <= k < |text|
      ensures !OnlyPython(text[k])
    {
    }
    DistinctMeets(text, edits);
  }

  // ---------------------------------------------------------------- the smallest cases

  /** A character past its line: the code goes past the line end, or into the next line. */
  lemma PastTheLine()
    ensures CodeOffset("a\n", Position(0, 5)) == 2 && StandardOffset(ProtocolLines("a\n"), Position(0, 5)) == 1
    ensures CodeOffset("ab\ncd", Position(0, 3)) == 3 && StandardOffset(ProtocolLines("ab\ncd"), Position(0, 3)) == 2
  {
    OnFirstLine("a\n", 2, 5);
    OnFirstLine("ab\ncd", 3, 3);
  }

  lemma OnFirstLine(t: string, m: nat, character: nat)
    requires 0 < m <= |t| && t[m - 1] == '\n' && forall k :: 0 <= k < m - 1 ==> !IsBreak(t[k])
    ensures CodeOffset(t, Position(0, character)) == Min(character, |t|)
    ensures StandardOffset(ProtocolLines(t), Position(0, character)) == Min(character, m - 1)
  {
    FirstAt(t, m);
    assert ProtocolLines(t)[0] == t[..m];
    assert EolLength(t[..m]) == 1 by {
      assert m > 1 ==> !IsBreak(t[m - 2]);
    }
    TableAt(SplitLines(t), |SplitLines(t)|, 0);
  }

  lemma {:induction false} FirstAt(t: string, m: nat)
    requires 0 < m <= |t| && t[m - 1] == '\n' && forall k :: 0 <= k < m - 1 ==> !IsBreak(t[k])
    ensures ProtocolFirst(t) == m
  {
    if m > 1 {
      FirstAt(t[1..], m - 1);
    }
  }

  /** A space ends no line: the second line of this text begins behind its "\n". */
  lemma SpaceEndsNoLine()
    ensures Apply("a b\nc", [Edit(Position(1, 0), Position(1, 1), "X")]) == "a b\nX"
  {
    var text, e := "a b\nc", Edit(Position(1, 0), Position(1, 1), "X");
    var lines := ["a b\n", "c"];
    SpacedLines(text, lines);
    TableAt(lines, 2, 1);
    assert LineStart(lines, 1) == LineStart(lines, 0) + 4;
    OneApplied(text, e);
    assert ToSpan(LineTable(lines), |text|, e) == Span(4, 5, "X");
  }

  lemma SpacedLines(text: string, lines: seq<string>)
    requires text == "a b\nc" && lines == ["a b\n", "c"]
    ensures SplitLines(text) == lines
  {
    assert lines[1..] == ["c"] && ["c"][1..] == [];
    assert Flatten(["c"]) == "c" + Flatten([]);
    SplitLinesExactly(text, lines);
  }

  /** Python ends the first line at a line separator, the protocol at the line end behind it. */
  lemma SeparatorEndsALine()
    ensures var text, pos := "a\U{2028}b\nc", Position(1, 0);
            && LinesDiffer(text) && Proper(ProtocolLines(text), pos)
            && CodeOffset(text, pos) == 2 && StandardOffset(ProtocolLines(text), pos) == 4
  {
    var text := "a\U{2028}b\nc";
    assert OnlyPython(text[1]) && IsEol(text[3]);
    SeparatorFirst(text);
    assert text[..4][3] == '\n';
    FirstMissed(text, 4);
  }

  lemma SeparatorFirst(text: string)
    requires text == "a\U{2028}b\nc"
    ensures ProtocolFirst(text) == 4 && FirstLine(text) == 2
  {
    var one, two, three := text[1..], text[1..][1..], text[1..][1..][1..];
    assert three == "\nc" && two == "b\nc" && one[0] == '\U{2028}';
    assert ProtocolFirst(three) == 1 && ProtocolFirst(two) == 2 && ProtocolFirst(one) == 3;
    assert FirstLine(one) == 1;
  }

  /** Two inserts at the start of an empty document come out in the reverse of the list's order. */
  lemma TwoInsertsReversed()
    ensures var origin := Position(0, 0);
            var edits := [Edit(origin, origin, "a"), Edit(origin, origin, "b")];
            && ProperEdits("", edits)
            && Apply("", edits) == "ba"
            && Standard("", ProtocolSpans("", edits)) == "ab"
  {
    var origin := Position(0, 0);
    var a, b := Edit(origin, origin, "a"), Edit(origin, origin, "b");
    TwoAtOrigin("", a, b);
    var spans := [Span(0, 0, "a"), Span(0, 0, "b")];
    assert ProtocolSpans("", [a, b]) == spans;
    assert spans[1..] == [spans[1]] && spans[1..][1..] == [];
    assert TextAt(spans, 0) == "a" + ("b" + "");
  }

  /** Of an insert and a replacement that follows it in the list, the inserted text is lost and replaced
      text survives. */
  lemma InsertBeforeReplacement()
    ensures var edits := [Edit(Position(0, 0), Position(0, 0), "x"), Edit(Position(0, 0), Position(0, 1), "y")];
            && ProperEdits("a", edits)
            && Apply("a", edits) == "ya"
            && Standard("a", ProtocolSpans("a", edits)) == "xy"
  {
    var a, b := Edit(Position(0, 0), Position(0, 0), "x"), Edit(Position(0, 0), Position(0, 1), "y");
    var spans := [Span(0, 0, "x"), Span(0, 1, "y")];
    TwoAtOrigin("a", a, b);
    LetterSpans(a, b);
    LetterReplaced(ProtocolSpans("a", [a, b]));
  }

  lemma LetterSpans(a: Edit, b: Edit)
    requires a == Edit(Position(0, 0), Position(0, 0), "x") && b == Edit(Position(0, 0), Position(0, 1), "y")
    ensures ProperEdits("a", [a, b]) && ProtocolSpans("a", [a, b]) == [Span(0, 0, "x"), Span(0, 1, "y")]
  {
    OneLetter();
    var lines := ProtocolLines("a");
    assert StandardOffset(lines, Position(0, 0)) == 0 && StandardOffset(lines, Position(0, 1)) == 1;
    assert Proper(lines, Position(0, 0)) && Proper(lines, Position(0, 1));
  }

  lemma OneLetter()
    ensures ProtocolLines("a") == ["a"] && LineStart(["a"], 0) == 0 && EolLength("a") == 0
  {
    assert "a"[..1] == "a" && "a"[1..] == "";
  }

  lemma LetterReplaced(spans: seq<Span>)
    requires spans == [Span(0, 0, "x"), Span(0, 1, "y")]
    ensures Standard("a", spans) == "xy"
  {
    var rest := [Span(0, 1, "y")];
    assert spans[1..] == rest && rest[1..] == [];
    assert TextAt(rest, 0) == "y" + "" && TextAt(rest, 1) == "";
    assert TextAt(spans, 0) == "x" + TextAt(rest, 0) && TextAt(spans, 1) == TextAt(rest, 1);
    assert Covered(spans, 0, 0) by {
      assert spans[1].start <= 0 < spans[1].end;
    }
    assert Weave("a", spans, InOrder(spans), 0, 1) == "";
  }

  /** Of two edits at the start of the document the first in the list is applied first. */
  lemma TwoAtOrigin(text: string, a: Edit, b: Edit)
    requires a.start == b.start == a.end == Position(0, 0) && b.end.line == 0 && b.end.character <= |text|
    ensures Apply(text, [a, b]) == b.newText + (a.newText + text)[b.end.character..]
  {
    var table, now := LineTable(SplitLines(text)), a.newText + text;
    TableAt(SplitLines(text), |SplitLines(text)|, 0);
    assert [a, b][1..] == [b] && [b][1..] == [];
    assert SortDescending([b]) == [b] && SortDescending([a, b]) == [a, b];
    assert Splice(text, ToSpan(table, |text|, a)) == now;
    assert Splice(now, ToSpan(table, |now|, b)) == b.newText + now[b.end.character..];
    assert Rewrite(table, now, [b]) == Rewrite(table, Splice(now, ToSpan(table, |now|, b)), []);
  }
}
