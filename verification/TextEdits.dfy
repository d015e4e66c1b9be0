/** `apply_edits` of scripts/format-staged.py: Language Server Protocol text edits, located by
    (line, character) through a table of line starts and applied end-first to a text that the
    loop rebinds. */
module TextEdits {
  import opened Substitution

  datatype Position = Position(line: nat, character: nat)

  datatype Edit = Edit(start: Position, end: Position, newText: string)

  predicate Before(p: Position, q: Position) {
    p.line < q.line || (p.line == q.line && p.character < q.character)
  }

  // ---------------------------------------------------------------- lines and offsets

  /** The line boundaries of Python's str.splitlines. */
  predicate IsBreak(c: char) {
    || c == '\n' || c == '\r' || c == '\U{0B}' || c == '\U{0C}' || c == '\U{1C}' || c == '\U{1D}' || c == '\U{1E}'
    || c == '\U{85}' || c == '\U{2028}' || c == '\U{2029}'
  }

  /** Length of the first line, terminator included. */
  function FirstLine(t: string): (n: nat)
    requires t != []
    ensures 1 <= n <= |t|
  {
    if |t| > 1 && t[0] == '\r' && t[1] == '\n' then 2
    else if |t| == 1 || IsBreak(t[0]) then 1
    else 1 + FirstLine(t[1..])
  }

  function SplitLines(t: string): seq<string> {
    if t == [] then [] else
      var n := FirstLine(t);
      [t[..n]] + SplitLines(t[n..])
  }

  function Flatten(lines: seq<string>): string {
    if lines == [] then "" else lines[0] + Flatten(lines[1..])
  }

  /** No line is empty. */
  predicate ProperLines(lines: seq<string>) {
    forall i :: 0 <= i < |lines| ==> lines[i] != []
  }

  /** str.splitlines(keepends=True) loses nothing and leaves no empty line. */
  lemma {:induction false} SplitLinesPartition(t: string)
    ensures Flatten(SplitLines(t)) == t
    ensures ProperLines(SplitLines(t))
  {
    if t != [] {
      var n := FirstLine(t);
      SplitLinesPartition(t[n..]);
      assert SplitLines(t)[1..] == SplitLines(t[n..]);
      assert t[..n] + t[n..] == t;
    }
  }

  // ---------------------------------------------------------------- where lines end

  /** A line that holds no line end but the one that may close it. */
  predicate OneLine(ends: set<char>, line: string) {
    && line != ""
    && forall k :: 0 <= k < |line| - 1 && line[k] in ends ==>
         k == |line| - 2 && line[k] == '\r' && line[|line| - 1] == '\n'
  }

  /** The line ends in front of the next one, which does not cut a "\r\n" in two. */
  predicate EndedBefore(ends: set<char>, line: string, next: string) {
    && line != "" && next != ""
    && line[|line| - 1] in ends
    && !(line[|line| - 1] == '\r' && next[0] == '\n')
  }

  /** Lines cut behind the characters of `ends` and nowhere else, "\r\n" counting as one line end. */
  ghost predicate CutBehind(ends: set<char>, lines: seq<string>) {
    && (forall i :: 0 <= i < |lines| ==> OneLine(ends, lines[i]))
    && (forall i, j :: 0 <= i < j < |lines| && j == i + 1 ==> EndedBefore(ends, lines[i], lines[j]))
  }

  /** str.splitlines ends lines at ten characters and "\r\n": it gives the one list of lines that make up the
      text and are cut there and nowhere else. */
  lemma SplitLinesExactly(t: string, lines: seq<string>)
    ensures lines == SplitLines(t) <==>
            && Flatten(lines) == t
            && CutBehind({'\n', '\r', '\U{0B}', '\U{0C}', '\U{1C}', '\U{1D}', '\U{1E}',
                          '\U{85}', '\U{2028}', '\U{2029}'}, lines)
  {
    var ends := {'\n', '\r', '\U{0B}', '\U{0C}', '\U{1C}', '\U{1D}', '\U{1E}', '\U{85}', '\U{2028}', '\U{2029}'};
    forall c: char
      ensures IsBreak(c) <==> c in ends
    {
    }
    SplitLinesPartition(t);
    SplitLinesCut(ends, t);
    if Flatten(lines) == t && CutBehind(ends, lines) {
      UniqueCut(ends, lines, SplitLines(t));
    }
  }

  lemma {:induction false} SplitLinesCut(ends: set<char>, t: string)
    requires forall c: char :: IsBreak(c) <==> c in ends
    ensures CutBehind(ends, SplitLines(t))
  {
    if t != "" {
      var n := FirstLine(t);
      FirstLineCut(ends, t);
      SplitLinesCut(ends, t[n..]);
      CutPrepend(ends, t[..n], SplitLines(t[n..]));
    }
  }

  lemma {:induction false} FirstLineCut(ends: set<char>, t: string)
    requires t != "" && forall c: char :: IsBreak(c) <==> c in ends
    ensures OneLine(ends, t[..FirstLine(t)])
    ensures FirstLine(t) < |t| ==> EndedBefore(ends, t[..FirstLine(t)], t[FirstLine(t)..])
  {
    if !(|t| > 1 && t[0] == '\r' && t[1] == '\n') && |t| > 1 && !IsBreak(t[0]) {
      FirstLineCut(ends, t[1..]);
      var n := FirstLine(t[1..]);
      CutLonger(ends, t[0], t[1..][..n], t[..n + 1]);
    }
  }

  lemma CutLonger(ends: set<char>, c: char, line: string, longer: string)
    requires c !in ends && OneLine(ends, line) && longer == [c] + line
    ensures OneLine(ends, longer)
  {
    forall k | 0 <= k < |longer| - 1 && longer[k] in ends
      ensures k == |longer| - 2 && longer[k] == '\r' && longer[|longer| - 1] == '\n'
    {
      assert line[k - 1] == longer[k];
    }
  }

  lemma CutPrepend(ends: set<char>, line: string, rest: seq<string>)
    requires OneLine(ends, line) && CutBehind(ends, rest)
    requires rest != [] ==> EndedBefore(ends, line, rest[0])
    ensures CutBehind(ends, [line] + rest)
  {
    var lines := [line] + rest;
    forall i, j | 0 <= i < j < |lines| && j == i + 1
      ensures EndedBefore(ends, lines[i], lines[j])
    {
      if i > 0 {
        assert lines[i] == rest[i - 1] && lines[j] == rest[j - 1];
      }
    }
  }

  lemma CutTail(ends: set<char>, lines: seq<string>)
    requires lines != [] && CutBehind(ends, lines)
    ensures CutBehind(ends, lines[1..])
  {
    var rest := lines[1..];
    forall i, j | 0 <= i < j < |rest| && j == i + 1
      ensures EndedBefore(ends, rest[i], rest[j])
    {
      assert EndedBefore(ends, lines[i + 1], lines[j + 1]);
    }
  }

  /** A text can be cut in one way only. */
  lemma {:induction false} UniqueCut(ends: set<char>, a: seq<string>, b: seq<string>)
    requires CutBehind(ends, a) && CutBehind(ends, b) && Flatten(a) == Flatten(b)
    ensures a == b
  {
    CutEmpty(ends, a);
    CutEmpty(ends, b);
    if Flatten(a) != "" {
      var t := Flatten(a);
      assert t == a[0] + Flatten(a[1..]) && t == b[0] + Flatten(b[1..]);
      assert a[0] == t[..|a[0]|] && b[0] == t[..|b[0]|];
      CutNotSooner(ends, a, b[0]);
      CutNotSooner(ends, b, a[0]);
      assert Flatten(a[1..]) == t[|a[0]|..] == Flatten(b[1..]);
      CutTail(ends, a);
      CutTail(ends, b);
      UniqueCut(ends, a[1..], b[1..]);
      assert a == [a[0]] + a[1..] && b == [b[0]] + b[1..];
    }
  }

  lemma CutEmpty(ends: set<char>, lines: seq<string>)
    requires CutBehind(ends, lines)
    ensures Flatten(lines) == "" <==> lines == []
  {
    if lines != [] {
      assert OneLine(ends, lines[0]);
    }
  }

  lemma CutNotSooner(ends: set<char>, lines: seq<string>, other: string)
    requires lines != [] && CutBehind(ends, lines)
    requires |other| <= |Flatten(lines)| && other == Flatten(lines)[..|other|]
    ensures OneLine(ends, other) ==> |lines[0]| >= |other|
  {
    var line := lines[0];
    if |line| < |other| {
      assert Flatten(lines) == line + Flatten(lines[1..]);
      assert EndedBefore(ends, line, lines[1]);
      assert Flatten(lines[1..]) == lines[1] + Flatten(lines[1..][1..]);
      assert other[|line| - 1] == line[|line| - 1] && other[|line|] == lines[1][0];
    }
  }

  function LineStart(lines: seq<string>, k: nat): nat
    requires k <= |lines|
  {
    if k == 0 then 0 else LineStart(lines, k - 1) + |lines[k - 1]|
  }

  /** The first k + 1 entries of the table of line starts. */
  function TableTo(lines: seq<string>, k: nat): (table: seq<nat>)
    requires k <= |lines|
    ensures |table| == k + 1
  {
    if k == 0 then [0] else TableTo(lines, k - 1) + [LineStart(lines, k)]
  }

  function LineTable(lines: seq<string>): (table: seq<nat>)
    ensures |table| == |lines| + 1
  {
    TableTo(lines, |lines|)
  }

  function Size(lines: seq<string>): nat {
    LineStart(lines, |lines|)
  }

  /** The inner function `offset`; `size` is the length of whatever `text` is bound to. */
  function Offset(table: seq<nat>, size: nat, pos: Position): (o: nat)
    ensures o <= size
  {
    if pos.line >= |table| then size else Min(table[pos.line] + pos.character, size)
  }

  function ToSpan(table: seq<nat>, size: nat, e: Edit): Span {
    Span(Offset(table, size, e.start), Offset(table, size, e.end), e.newText)
  }

  function ToSpans(table: seq<nat>, size: nat, edits: seq<Edit>): (r: seq<Span>)
    ensures |r| == |edits|
    ensures forall i :: 0 <= i < |r| ==> r[i] == ToSpan(table, size, edits[i])
  {
    if edits == [] then [] else [ToSpan(table, size, edits[0])] + ToSpans(table, size, edits[1..])
  }

  /** The spans of the original text that the edits name. */
  function SpansOf(text: string, edits: seq<Edit>): seq<Span> {
    ToSpans(LineTable(SplitLines(text)), |text|, edits)
  }

  // ---------------------------------------------------------------- the algorithm

  /** Python's sorted(..., reverse=True): descending by start position, equal keys in list order. */
  function SortDescending(edits: seq<Edit>): (r: seq<Edit>)
    ensures |r| == |edits|
  {
    if edits == [] then [] else InsertDescending(edits[0], SortDescending(edits[1..]))
  }

  function InsertDescending(e: Edit, s: seq<Edit>): (r: seq<Edit>)
    ensures |r| == |s| + 1
  {
    if s == [] || !Before(e.start, s[0].start) then [e] + s
    else [s[0]] + InsertDescending(e, s[1..])
  }

  /** The loop: every edit is located against the text as rewritten so far. */
  function Rewrite(table: seq<nat>, text: string, sorted: seq<Edit>): string
    decreases |sorted|
  {
    if sorted == [] then text
    else Rewrite(table, Splice(text, ToSpan(table, |text|, sorted[0])), sorted[1..])
  }

  function Apply(text: string, edits: seq<Edit>): string {
    Rewrite(LineTable(SplitLines(text)), text, SortDescending(edits))
  }

  lemma {:induction false} TableAt(lines: seq<string>, k: nat, line: nat)
    requires line <= k <= |lines|
    ensures TableTo(lines, k)[line] == LineStart(lines, line)
  {
    if line < k {
      TableAt(lines, k - 1, line);
    }
  }

  method BuildLineTable(lines: seq<string>) returns (table: seq<nat>)
    ensures table == LineTable(lines)
  {
    table := [0];
    for i := 0 to |lines|
      invariant table == TableTo(lines, i)
    {
      TableAt(lines, i, i);
      table := table + [table[|table| - 1] + |lines[i]|];
    }
  }

  method ApplyEdits(text: string, edits: seq<Edit>) returns (result: string)
    ensures result == Apply(text, edits)
    ensures WellFormed(text, edits) && DistinctStarts(SpansOf(text, edits)) ==>
              result == Standard(text, SpansOf(text, edits))
  {
    if edits == [] {
      result := text;
    } else {
      var table := BuildLineTable(SplitLines(text));
      var sorted := SortDescending(edits);
      result := text;
      for i := 0 to |sorted|
        invariant Rewrite(table, result, sorted[i..]) == Apply(text, edits)
      {
        var start := Offset(table, |result|, sorted[i].start);
        var end := Offset(table, |result|, sorted[i].end);
        assert sorted[i..][1..] == sorted[i + 1..];
        result := result[..start] + sorted[i].newText + result[end..];
      }
    }
    if WellFormed(text, edits) && DistinctStarts(SpansOf(text, edits)) {
      ApplyMeetsStandard(text, edits);
    }
  }

  // ---------------------------------------------------------------- which lists are well formed

  /** A position on one of the lines, or at the start of the line after the last one. */
  predicate InRange(lines: seq<string>, pos: Position) {
    || (pos.line < |lines| && pos.character <= |lines[pos.line]|)
    || (pos.line == |lines| && pos.character == 0)
  }

  /** A position whose offset is not clamped: in range, or reaching from its line into later ones. */
  predicate Placed(lines: seq<string>, pos: Position) {
    pos.line <= |lines| && LineStart(lines, pos.line) + pos.character <= Size(lines)
  }

  /** Legal edits at positions in range; the end of the last one may lie anywhere behind it, as
      in the edit that replaces a whole document. */
  predicate WellFormed(text: string, edits: seq<Edit>) {
    var lines, spans := SplitLines(text), SpansOf(text, edits);
    && Legal(|text|, spans)
    && (forall i :: 0 <= i < |edits| ==> InRange(lines, edits[i].start))
    && (forall i :: 0 <= i < |edits| ==>
          InRange(lines, edits[i].end) || forall j :: 0 <= j < |edits| && j != i ==> spans[j].start < spans[i].start)
  }

  /** No document offset at which an edit starts is spelled in two ways. */
  predicate SpelledOnce(text: string, edits: seq<Edit>) {
    var spans := SpansOf(text, edits);
    forall i, j :: 0 <= i < |edits| && 0 <= j < |edits| && spans[i].start == spans[j].start ==>
      edits[i].start == edits[j].start
  }

  /** What the loop itself needs of its edits: as `WellFormed`, with positions that are merely placed and
      whose order is that of their offsets. */
  predicate Regular(text: string, edits: seq<Edit>) {
    var lines, spans := SplitLines(text), SpansOf(text, edits);
    && Legal(|text|, spans)
    && OrdersAgree(LineTable(lines), |text|, edits)
    && (forall i :: 0 <= i < |edits| ==> Placed(lines, edits[i].start))
    && (forall i :: 0 <= i < |edits| ==>
          Placed(lines, edits[i].end) || forall j :: 0 <= j < |edits| && j != i ==> spans[j].start < spans[i].start)
  }

  // ---------------------------------------------------------------- the line table

  lemma {:induction false} LineStartsIncrease(lines: seq<string>, j: nat, k: nat)
    requires j <= k <= |lines|
    ensures LineStart(lines, j) <= LineStart(lines, k)
    ensures j < k ==> LineStart(lines, j) + |lines[j]| <= LineStart(lines, k)
    decreases k - j
  {
    if j < k {
      LineStartsIncrease(lines, j, k - 1);
    }
  }

  /** The line table strictly increases from 0 to the length of the text. */
  lemma TableIncreases(text: string)
    ensures var table := LineTable(SplitLines(text));
            && table[0] == 0 && table[|table| - 1] == |text|
            && forall j, k :: 0 <= j < k < |table| ==> table[j] < table[k]
  {
    var lines := SplitLines(text);
    SplitLinesSize(text);
    TableAt(lines, |lines|, 0);
    TableAt(lines, |lines|, |lines|);
    forall j, k | 0 <= j < k <= |lines|
      ensures LineTable(lines)[j] < LineTable(lines)[k]
    {
      TableAt(lines, |lines|, j);
      TableAt(lines, |lines|, k);
      LineStartsIncrease(lines, j, k);
      assert lines[j] != [];
    }
  }

  lemma {:induction false} LineStartTail(lines: seq<string>, k: nat)
    requires 1 <= k <= |lines|
    ensures LineStart(lines, k) == |lines[0]| + LineStart(lines[1..], k - 1)
  {
    if k > 1 {
      LineStartTail(lines, k - 1);
    }
  }

  /** The table ends with the length of the text. */
  lemma SplitLinesSize(text: string)
    ensures Size(SplitLines(text)) == |text| && ProperLines(SplitLines(text))
  {
    SplitLinesPartition(text);
    FlattenLength(SplitLines(text));
  }

  lemma {:induction false} FlattenLength(lines: seq<string>)
    ensures Size(lines) == |Flatten(lines)|
  {
    if lines != [] {
      FlattenLength(lines[1..]);
      LineStartTail(lines, |lines|);
    }
  }

  lemma OffsetPlaced(lines: seq<string>, pos: Position)
    requires Placed(lines, pos)
    ensures LineTable(lines)[pos.line] == LineStart(lines, pos.line)
    ensures Offset(LineTable(lines), Size(lines), pos) == LineStart(lines, pos.line) + pos.character
  {
    TableAt(lines, |lines|, pos.line);
  }

  /** In range, `offset` never clamps at the original length. */
  lemma OffsetInRange(lines: seq<string>, pos: Position)
    requires InRange(lines, pos)
    ensures Placed(lines, pos)
    ensures LineTable(lines)[pos.line] == LineStart(lines, pos.line)
    ensures Offset(LineTable(lines), Size(lines), pos) == LineStart(lines, pos.line) + pos.character
  {
    LineStartsIncrease(lines, pos.line, |lines|);
    OffsetPlaced(lines, pos);
  }

  /** The offset of a position strictly inside its line is where the text holds that line's character. */
  lemma OffsetPoints(text: string, pos: Position)
    requires pos.line < |SplitLines(text)| && pos.character < |SplitLines(text)[pos.line]|
    ensures var o := Offset(LineTable(SplitLines(text)), |text|, pos);
            o < |text| && text[o] == SplitLines(text)[pos.line][pos.character]
  {
    var lines := SplitLines(text);
    SplitLinesPartition(text);
    SplitLinesSize(text);
    OffsetInRange(lines, pos);
    FlattenAt(lines, pos.line, pos.character);
  }

  lemma {:induction false} FlattenAt(lines: seq<string>, k: nat, c: nat)
    requires k < |lines| && c < |lines[k]|
    ensures LineStart(lines, k) + c < |Flatten(lines)| && Flatten(lines)[LineStart(lines, k) + c] == lines[k][c]
  {
    if k > 0 {
      FlattenAt(lines[1..], k - 1, c);
      LineStartTail(lines, k);
    }
  }

  /** Lexicographic order of positions carries over to offsets. */
  lemma OffsetMonotone(lines: seq<string>, p: Position, q: Position)
    requires InRange(lines, p) && InRange(lines, q) && Before(p, q)
    ensures Offset(LineTable(lines), Size(lines), p) <= Offset(LineTable(lines), Size(lines), q)
  {
    OffsetInRange(lines, p);
    OffsetInRange(lines, q);
    LineStartsIncrease(lines, p.line, q.line);
  }

  /** The position strictly inside its line that names the offset o. */
  function Locate(lines: seq<string>, o: nat): Position
    requires o < |Flatten(lines)|
  {
    if o < |lines[0]| then Position(0, o) else
      var rest := Locate(lines[1..], o - |lines[0]|);
      Position(rest.line + 1, rest.character)
  }

  lemma {:induction false} LocateOffset(lines: seq<string>, o: nat)
    requires o < |Flatten(lines)|
    ensures var pos := Locate(lines, o);
            pos.line < |lines| && pos.character < |lines[pos.line]| && LineStart(lines, pos.line) + pos.character == o
  {
    if o >= |lines[0]| {
      LocateOffset(lines[1..], o - |lines[0]|);
      LineStartTail(lines, Locate(lines, o).line);
    }
  }

  /** Every offset before the end of the text is the offset of exactly one position that lies
      strictly inside its line. */
  lemma OffsetUnique(lines: seq<string>, o: nat, pos: Position)
    requires o < |Flatten(lines)|
    ensures pos == Locate(lines, o) <==>
            && pos.line < |lines|
            && pos.character < |lines[pos.line]|
            && Offset(LineTable(lines), |Flatten(lines)|, pos) == o
  {
    var here := Locate(lines, o);
    FlattenLength(lines);
    LocateOffset(lines, o);
    OffsetInRange(lines, here);
    if pos.line < |lines| && pos.character < |lines[pos.line]| {
      OffsetInRange(lines, pos);
      if pos.line < here.line {
        LineStartsIncrease(lines, pos.line, here.line);
      } else if here.line < pos.line {
        LineStartsIncrease(lines, here.line, pos.line);
      }
    }
  }

  // ---------------------------------------------------------------- sorting by position sorts by offset

  lemma {:induction false} InsertSpan(table: seq<nat>, size: nat, e: Edit, s: seq<Edit>)
    requires forall i :: 0 <= i < |s| ==>
               (Before(e.start, s[i].start) <==> Offset(table, size, e.start) < Offset(table, size, s[i].start))
    ensures ToSpans(table, size, InsertDescending(e, s)) == Insert(ToSpan(table, size, e), ToSpans(table, size, s))
  {
    if s == [] || !Before(e.start, s[0].start) {
      assert ([e] + s)[1..] == s;
    } else {
      InsertSpan(table, size, e, s[1..]);
      var rest := InsertDescending(e, s[1..]);
      assert ([s[0]] + rest)[1..] == rest;
    }
  }

  lemma {:induction false} InsertMembers(e: Edit, s: seq<Edit>)
    ensures forall x :: x in InsertDescending(e, s) <==> x == e || x in s
  {
    if s != [] && Before(e.start, s[0].start) {
      InsertMembers(e, s[1..]);
      assert forall x :: x in s <==> x == s[0] || x in s[1..];
    }
  }

  lemma {:induction false} SortMembers(edits: seq<Edit>)
    ensures forall x :: x in SortDescending(edits) <==> x in edits
  {
    if edits != [] {
      SortMembers(edits[1..]);
      InsertMembers(edits[0], SortDescending(edits[1..]));
      assert forall x :: x in edits <==> x == edits[0] || x in edits[1..];
    }
  }

  /** Comparing start positions and comparing start offsets come to the same. */
  predicate OrdersAgree(table: seq<nat>, size: nat, edits: seq<Edit>) {
    forall i, j :: 0 <= i < |edits| && 0 <= j < |edits| ==>
      (Before(edits[i].start, edits[j].start) <==>
       Offset(table, size, edits[i].start) < Offset(table, size, edits[j].start))
  }

  lemma {:induction false} SortSpans(table: seq<nat>, size: nat, edits: seq<Edit>)
    requires OrdersAgree(table, size, edits)
    ensures ToSpans(table, size, SortDescending(edits)) == Sorted(ToSpans(table, size, edits))
  {
    if edits != [] {
      var rest := SortDescending(edits[1..]);
      SortSpans(table, size, edits[1..]);
      SortMembers(edits[1..]);
      forall i | 0 <= i < |rest|
        ensures Before(edits[0].start, rest[i].start) <==>
                Offset(table, size, edits[0].start) < Offset(table, size, rest[i].start)
      {
        assert rest[i] in edits[1..];
      }
      InsertSpan(table, size, edits[0], rest);
    }
  }

  lemma PositionsOrderOffsets(text: string, edits: seq<Edit>)
    requires WellFormed(text, edits) && SpelledOnce(text, edits)
    ensures OrdersAgree(LineTable(SplitLines(text)), |text|, edits)
  {
    var lines := SplitLines(text);
    SplitLinesSize(text);
    forall i, j | 0 <= i < |edits| && 0 <= j < |edits|
      ensures Before(edits[i].start, edits[j].start) <==>
              Offset(LineTable(lines), |text|, edits[i].start) < Offset(LineTable(lines), |text|, edits[j].start)
    {
      var spans := SpansOf(text, edits);
      assert spans[i].start == Offset(LineTable(lines), |text|, edits[i].start);
      assert spans[j].start == Offset(LineTable(lines), |text|, edits[j].start);
      ComparePositions(lines, edits[i].start, edits[j].start);
    }
  }

  lemma ComparePositions(lines: seq<string>, p: Position, q: Position)
    requires InRange(lines, p) && InRange(lines, q)
    requires Offset(LineTable(lines), Size(lines), p) == Offset(LineTable(lines), Size(lines), q) ==> p == q
    ensures Before(p, q) <==> Offset(LineTable(lines), Size(lines), p) < Offset(LineTable(lines), Size(lines), q)
  {
    if Before(p, q) {
      OffsetMonotone(lines, p, q);
    } else if Before(q, p) {
      OffsetMonotone(lines, q, p);
    }
  }

  // ---------------------------------------------------------------- the loop against spans of the original

  /** Placed edits name the same offsets whatever `text` has become, up to clamping. */
  lemma {:induction false} RewriteSpans(text: string, now: string, edits: seq<Edit>)
    requires forall i :: 0 <= i < |edits| ==>
               Placed(SplitLines(text), edits[i].start) && Placed(SplitLines(text), edits[i].end)
    ensures Rewrite(LineTable(SplitLines(text)), now, edits) == Run(now, SpansOf(text, edits))
    decreases |edits|
  {
    if edits != [] {
      var table := LineTable(SplitLines(text));
      SplicePlaced(text, now, edits[0]);
      RewriteSpans(text, Splice(now, ToSpan(table, |now|, edits[0])), edits[1..]);
      assert SpansOf(text, edits) == [ToSpan(table, |text|, edits[0])] + SpansOf(text, edits[1..]);
    }
  }

  lemma SplicePlaced(text: string, now: string, e: Edit)
    requires Placed(SplitLines(text), e.start) && Placed(SplitLines(text), e.end)
    ensures var table := LineTable(SplitLines(text));
            Splice(now, ToSpan(table, |now|, e)) == Splice(now, ToSpan(table, |text|, e))
  {
    SplitLinesSize(text);
    OffsetClamps(SplitLines(text), |now|, e.start);
    OffsetClamps(SplitLines(text), |now|, e.end);
    SpliceClamps(now, ToSpan(LineTable(SplitLines(text)), |text|, e));
  }

  lemma OffsetClamps(lines: seq<string>, size: nat, pos: Position)
    requires Placed(lines, pos)
    ensures Offset(LineTable(lines), size, pos) == Min(Offset(LineTable(lines), Size(lines), pos), size)
  {
    OffsetPlaced(lines, pos);
  }

  lemma SpliceClamps(now: string, s: Span)
    ensures Splice(now, Span(Min(s.start, |now|), Min(s.end, |now|), s.newText)) == Splice(now, s)
  {
  }

  /** A span whose start lies behind all others is sorted to the front. */
  lemma {:induction false} SortedFirst(spans: seq<Span>, i: nat)
    requires i < |spans| && forall j :: 0 <= j < |spans| && j != i ==> spans[j].start < spans[i].start
    ensures Sorted(spans)[0] == spans[i]
    ensures forall m :: 1 <= m < |spans| ==> Sorted(spans)[m].start < spans[i].start
  {
    var rest := Sorted(spans[1..]);
    SortedMembers(spans[1..]);
    forall m | 0 <= m < |rest|
      ensures i == 0 ==> rest[m].start < spans[0].start
    {
      assert rest[m] in rest;
    }
    if i > 0 {
      SortedFirst(spans[1..], i - 1);
      SpanInsertMembers(spans[0], rest[1..]);
      var tail := Insert(spans[0], rest[1..]);
      assert Sorted(spans) == [rest[0]] + tail;
      forall m | 0 <= m < |tail|
        ensures tail[m].start < spans[i].start
      {
        assert tail[m] in tail;
      }
    }
  }

  lemma {:induction false} SortedMembers(spans: seq<Span>)
    ensures forall x :: x in Sorted(spans) ==> x in spans
  {
    if spans != [] {
      SortedMembers(spans[1..]);
      SpanInsertMembers(spans[0], Sorted(spans[1..]));
    }
  }

  lemma {:induction false} SpanInsertMembers(s: Span, sorted: seq<Span>)
    ensures forall x :: x in Insert(s, sorted) ==> x == s || x in sorted
  {
    if sorted != [] && sorted[0].start > s.start {
      SpanInsertMembers(s, sorted[1..]);
    }
  }

  /** Well-formed edits are regular, and so are those with distinct starts. */
  lemma WellFormedRegular(text: string, edits: seq<Edit>)
    requires WellFormed(text, edits) && (SpelledOnce(text, edits) || DistinctStarts(SpansOf(text, edits)))
    ensures SpelledOnce(text, edits) && Regular(text, edits)
  {
    var lines := SplitLines(text);
    PositionsOrderOffsets(text, edits);
    forall i | 0 <= i < |edits|
      ensures Placed(lines, edits[i].start)
      ensures InRange(lines, edits[i].end) ==> Placed(lines, edits[i].end)
    {
      OffsetInRange(lines, edits[i].start);
      if InRange(lines, edits[i].end) {
        OffsetInRange(lines, edits[i].end);
      }
    }
  }

  /** The loop rewrites exactly the spans of the original text, in sorted order. */
  lemma ApplyRunsSpans(text: string, edits: seq<Edit>)
    requires Regular(text, edits)
    ensures Apply(text, edits) == Run(text, Sorted(SpansOf(text, edits)))
    ensures SpansOf(text, SortDescending(edits)) == Sorted(SpansOf(text, edits))
  {
    var sorted := SortDescending(edits);
    SortSpans(LineTable(SplitLines(text)), |text|, edits);
    if edits != [] {
      TailPlaced(text, edits);
      assert sorted == [sorted[0]] + sorted[1..];
      RewriteFirst(text, sorted[0], sorted[1..]);
    }
  }

  /** Only the edit that is applied first may end where offsets are clamped. */
  lemma TailPlaced(text: string, edits: seq<Edit>)
    requires edits != [] && Regular(text, edits)
    requires SpansOf(text, SortDescending(edits)) == Sorted(SpansOf(text, edits))
    ensures var sorted, lines := SortDescending(edits), SplitLines(text);
            forall k :: 1 <= k < |sorted| ==> Placed(lines, sorted[k].start) && Placed(lines, sorted[k].end)
  {
    var sorted, spans := SortDescending(edits), SpansOf(text, edits);
    SortMembers(edits);
    forall k | 1 <= k < |sorted|
      ensures Placed(SplitLines(text), sorted[k].start) && Placed(SplitLines(text), sorted[k].end)
    {
      assert sorted[k] in edits;
      var i :| 0 <= i < |edits| && edits[i] == sorted[k];
      if !Placed(SplitLines(text), edits[i].end) {
        SortedFirst(spans, i);
      }
    }
  }

  /** Distinct starts: the loop computes the simultaneous substitution on the original text. */
  lemma ApplyMeetsStandard(text: string, edits: seq<Edit>)
    requires WellFormed(text, edits) && DistinctStarts(SpansOf(text, edits))
    ensures Apply(text, edits) == Standard(text, SpansOf(text, edits))
  {
    WellFormedRegular(text, edits);
    ApplyRunsSpans(text, edits);
    DistinctMeetsStandard(text, SpansOf(text, edits));
  }

  // ---------------------------------------------------------------- every iteration, and the length

  lemma LegalSplit(size: nat, first: Span, tail: seq<Span>)
    requires Legal(size, [first] + tail)
    ensures Legal(size, tail)
    ensures first.start <= first.end <= size && forall x :: x in tail ==> Precedes(first, x)
  {
    var all := [first] + tail;
    assert all[0] == first;
    forall i | 0 <= i < |tail|
      ensures Precedes(first, tail[i])
      ensures tail[i].start <= tail[i].end <= size
    {
      assert Precedes(all[0], all[i + 1]);
    }
    forall i, j | 0 <= i < j < |tail|
      ensures Precedes(tail[i], tail[j])
    {
      assert Precedes(all[i + 1], all[j + 1]);
    }
  }

  lemma LegalCons(size: nat, first: Span, tail: seq<Span>)
    requires Legal(size, tail)
    requires first.start <= first.end <= size && forall x :: x in tail ==> Precedes(first, x)
    ensures Legal(size, [first] + tail)
  {
    var all := [first] + tail;
    forall i, j | 0 <= i < j < |all|
      ensures Precedes(all[i], all[j])
    {
      assert all[j] == tail[j - 1] && all[j] in tail;
      assert i > 0 ==> all[i] == tail[i - 1];
    }
  }

  lemma {:induction false} InsertLegal(size: nat, s: Span, sorted: seq<Span>)
    requires Legal(size, [s] + sorted) && Descending(sorted)
    ensures Legal(size, Insert(s, sorted)) && Descending(Insert(s, sorted))
  {
    if sorted == [] || sorted[0].start <= s.start {
      DescendingCons(s, sorted);
    } else {
      var first, rest, tail := sorted[0], sorted[1..], Insert(s, sorted[1..]);
      assert Legal(size, [s] + rest) && Legal(size, [first] + rest) && Precedes(first, s) by {
        assert sorted == [first] + rest;
        LegalSplit(size, s, sorted);
        LegalSplit(size, first, rest);
        LegalCons(size, s, rest);
        assert first in sorted && Precedes(s, first);
      }
      InsertLegal(size, s, rest);
      InsertAfter(size, first, s, rest);
      DescendingCons(first, tail);
    }
  }

  lemma InsertAfter(size: nat, first: Span, s: Span, rest: seq<Span>)
    requires Legal(size, [first] + rest) && Legal(size, Insert(s, rest))
    requires Precedes(first, s)
    ensures Legal(size, [first] + Insert(s, rest))
    ensures forall x :: x in Insert(s, rest) ==> x == s || x in rest
  {
    LegalSplit(size, first, rest);
    SpanInsertMembers(s, rest);
    LegalCons(size, first, Insert(s, rest));
  }

  lemma DescendingCons(first: Span, tail: seq<Span>)
    requires Descending(tail) && forall x :: x in tail ==> x.start <= first.start
    ensures Descending([first] + tail)
  {
    assert forall i :: 0 <= i < |tail| ==> tail[i] in tail;
  }

  lemma {:induction false} SortedLegal(size: nat, spans: seq<Span>)
    requires Legal(size, spans)
    ensures Legal(size, Sorted(spans)) && Descending(Sorted(spans))
  {
    if spans != [] {
      assert spans == [spans[0]] + spans[1..];
      LegalSplit(size, spans[0], spans[1..]);
      SortedLegal(size, spans[1..]);
      SortedMembers(spans[1..]);
      LegalCons(size, spans[0], Sorted(spans[1..]));
      InsertLegal(size, spans[0], Sorted(spans[1..]));
    }
  }

  /** At every iteration the positions of the edit at hand name the same offsets in the rewritten
      text as in the original, and everything before its start is still the original. */
  lemma OffsetsUnchanged(text: string, edits: seq<Edit>, k: nat)
    requires WellFormed(text, edits) && SpelledOnce(text, edits) && k < |edits|
    ensures OffsetsKept(text, edits, k)
  {
    WellFormedRegular(text, edits);
    RegularOffsets(text, edits, k);
  }

  predicate OffsetsKept(text: string, edits: seq<Edit>, k: nat)
    requires k < |edits|
  {
    var table, sorted := LineTable(SplitLines(text)), SortDescending(edits);
    var now := Rewrite(table, text, sorted[..k]);
    && ToSpan(table, |now|, sorted[k]) == ToSpan(table, |text|, sorted[k])
    && now[..Offset(table, |now|, sorted[k].start)] == text[..Offset(table, |text|, sorted[k].start)]
  }

  lemma RegularOffsets(text: string, edits: seq<Edit>, k: nat)
    requires Regular(text, edits) && k < |edits|
    ensures OffsetsKept(text, edits, k)
  {
    var table, sorted, spans := LineTable(SplitLines(text)), SortDescending(edits), SpansOf(text, edits);
    ApplyRunsSpans(text, edits);
    SortedLegal(|text|, spans);
    OffsetsStable(text, Sorted(spans), k);
    TailPlaced(text, edits);
    RewritePrefix(text, sorted, k);
    if k > 0 {
      SplitLinesSize(text);
      OffsetPlaced(SplitLines(text), sorted[k].start);
      OffsetPlaced(SplitLines(text), sorted[k].end);
    } else {
      assert sorted[..0] == [];
    }
    assert Sorted(spans)[k] == ToSpan(table, |text|, sorted[k]);
  }

  lemma RewritePrefix(text: string, sorted: seq<Edit>, k: nat)
    requires k <= |sorted|
    requires forall i :: 1 <= i < |sorted| ==>
               Placed(SplitLines(text), sorted[i].start) && Placed(SplitLines(text), sorted[i].end)
    ensures Rewrite(LineTable(SplitLines(text)), text, sorted[..k]) == Run(text, SpansOf(text, sorted)[..k])
  {
    if k > 0 {
      var rest := sorted[1..k];
      forall i | 0 <= i < |rest|
        ensures Placed(SplitLines(text), rest[i].start) && Placed(SplitLines(text), rest[i].end)
      {
        assert rest[i] == sorted[i + 1];
      }
      RewriteFirst(text, sorted[0], rest);
      assert sorted[..k] == [sorted[0]] + rest;
    }
    SpansPrefix(LineTable(SplitLines(text)), |text|, sorted, k);
  }

  lemma SpansPrefix(table: seq<nat>, size: nat, edits: seq<Edit>, k: nat)
    requires k <= |edits|
    ensures ToSpans(table, size, edits[..k]) == ToSpans(table, size, edits)[..k]
  {
  }

  /** The first edit meets the original text; the others must be placed. */
  lemma RewriteFirst(text: string, first: Edit, rest: seq<Edit>)
    requires forall i :: 0 <= i < |rest| ==>
               Placed(SplitLines(text), rest[i].start) && Placed(SplitLines(text), rest[i].end)
    ensures Rewrite(LineTable(SplitLines(text)), text, [first] + rest) == Run(text, SpansOf(text, [first] + rest))
  {
    var table := LineTable(SplitLines(text));
    RewriteSpans(text, Splice(text, ToSpan(table, |text|, first)), rest);
    assert ([first] + rest)[1..] == rest;
    assert SpansOf(text, [first] + rest)[1..] == SpansOf(text, rest);
  }

  lemma {:induction false} GrowthSorted(spans: seq<Span>)
    ensures Growth(Sorted(spans)) == Growth(spans)
  {
    if spans != [] {
      GrowthSorted(spans[1..]);
      GrowthInsert(spans[0], Sorted(spans[1..]));
    }
  }

  lemma {:induction false} GrowthInsert(s: Span, sorted: seq<Span>)
    ensures Growth(Insert(s, sorted)) == Growth([s]) + Growth(sorted)
  {
    if sorted == [] || sorted[0].start <= s.start {
      assert ([s] + sorted)[1..] == sorted;
    } else {
      var tail := Insert(s, sorted[1..]);
      GrowthInsert(s, sorted[1..]);
      assert ([sorted[0]] + tail)[1..] == tail;
    }
  }

  /** Nothing is lost or duplicated: the length changes by new texts minus replaced spans. */
  lemma ApplyLength(text: string, edits: seq<Edit>)
    requires WellFormed(text, edits) && SpelledOnce(text, edits)
    ensures |Apply(text, edits)| == |text| + Growth(SpansOf(text, edits))
  {
    var spans := SpansOf(text, edits);
    WellFormedRegular(text, edits);
    ApplyRunsSpans(text, edits);
    SortedLegal(|text|, spans);
    RunLength(text, Sorted(spans), |spans|);
    assert Sorted(spans)[..|spans|] == Sorted(spans);
    GrowthSorted(spans);
  }

  // ---------------------------------------------------------------- the order of the list

  lemma {:induction false} SpansMultiset(table: seq<nat>, size: nat, a: seq<Edit>, b: seq<Edit>)
    requires multiset(a) == multiset(b)
    ensures multiset(ToSpans(table, size, a)) == multiset(ToSpans(table, size, b))
    decreases |a|
  {
    if a == [] {
      assert |b| == |multiset(b)| == 0;
    } else {
      assert a[0] in multiset(a);
      var k :| 0 <= k < |b| && b[k] == a[0];
      RemoveOne(a, b, k);
      SpansMultiset(table, size, a[1..], b[..k] + b[k + 1..]);
      SpansWithout(table, size, b, k);
    }
  }

  lemma RemoveOne(a: seq<Edit>, b: seq<Edit>, k: nat)
    requires multiset(a) == multiset(b) && k < |b| && a != [] && b[k] == a[0]
    ensures multiset(a[1..]) == multiset(b[..k] + b[k + 1..])
  {
    assert a == [a[0]] + a[1..];
    assert b == b[..k] + ([b[k]] + b[k + 1..]);
    assert multiset(a) == multiset{a[0]} + multiset(a[1..]);
    assert multiset(b) == multiset{a[0]} + multiset(b[..k] + b[k + 1..]);
    assert multiset(a[1..]) == multiset(a) - multiset{a[0]};
    assert multiset(b[..k] + b[k + 1..]) == multiset(b) - multiset{a[0]};
  }

  lemma SpansWithout(table: seq<nat>, size: nat, b: seq<Edit>, k: nat)
    requires k < |b|
    ensures multiset(ToSpans(table, size, b)) ==
            multiset{ToSpan(table, size, b[k])} + multiset(ToSpans(table, size, b[..k] + b[k + 1..]))
  {
    var front, back := b[..k], b[k + 1..];
    assert b == front + ([b[k]] + back);
    SpansAppend(table, size, front, back);
    SpansAppend(table, size, front, [b[k]] + back);
    SpansAppend(table, size, [b[k]], back);
  }

  lemma {:induction false} SpansAppend(table: seq<nat>, size: nat, a: seq<Edit>, b: seq<Edit>)
    ensures ToSpans(table, size, a + b) == ToSpans(table, size, a) + ToSpans(table, size, b)
  {
  }

  /** With distinct starts the result does not depend on the order in which edits are listed. */
  lemma ApplyOrderIrrelevant(text: string, a: seq<Edit>, b: seq<Edit>)
    requires multiset(a) == multiset(b)
    requires WellFormed(text, a) && DistinctStarts(SpansOf(text, a))
    ensures Apply(text, a) == Apply(text, b)
  {
    var table := LineTable(SplitLines(text));
    SpansMultiset(table, |text|, a, b);
    OrderIrrelevant(text, SpansOf(text, a), SpansOf(text, b));
    WellFormedMembers(text, a, b);
    ApplyMeetsStandard(text, a);
    ApplyMeetsStandard(text, b);
  }

  lemma WellFormedMembers(text: string, a: seq<Edit>, b: seq<Edit>)
    requires multiset(a) == multiset(b) && WellFormed(text, a)
    requires Legal(|text|, SpansOf(text, b)) && DistinctStarts(SpansOf(text, b))
    ensures WellFormed(text, b)
  {
    var lines, sa, sb := SplitLines(text), SpansOf(text, a), SpansOf(text, b);
    forall i | 0 <= i < |b|
      ensures InRange(lines, b[i].start)
      ensures InRange(lines, b[i].end) || forall j :: 0 <= j < |b| && j != i ==> sb[j].start < sb[i].start
    {
      assert b[i] in multiset(a);
      var k :| 0 <= k < |a| && a[k] == b[i];
      if !InRange(lines, b[i].end) {
        forall j | 0 <= j < |b| && j != i
          ensures sb[j].start < sb[i].start
        {
          assert b[j] in multiset(a);
          var m :| 0 <= m < |a| && a[m] == b[j];
          assert sb[j].start != sb[i].start;
          assert m != k;
        }
      }
    }
  }
}
