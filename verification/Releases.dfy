/** Release entries of the AppStream metadata (scripts/flatpak-sync.py, cmd_metainfo): the entry for a
    tag is inserted into the text of the file, which later runs search again by regular expression. */
module Releases {
  import opened Framing
  import opened Options
  import opened Selection

  // ---------------------------------------------------------------- the search for release lines

  const RELEASE := "<release version=\""

  /** What matters of the text `key` in front of a version: how it begins, that its only quote is at its
      end, and that it holds no newline and at most one space. */
  predicate Opening(key: string) {
    && |key| > 2 && key[0] == '<' && key[1] == 'r' && key[|key| - 1] == '"'
    && (forall k :: 0 <= k < |key| ==> key[k] != '\n' && (key[k] == '"' ==> k == |key| - 1))
    && (forall j, k :: 0 <= j < |key| && 0 <= k < |key| && key[j] == ' ' && key[k] == ' ' ==> j == k)
  }

  lemma ReleaseOpens()
    ensures Opening(RELEASE)
  {
  }

  datatype Match = Match(start: nat, version: string)

  /** Where the spaces from position i on end. */
  function SpacesEnd(t: string, i: nat): (j: nat)
    requires i <= |t|
    ensures i <= j <= |t| && (forall k :: i <= k < j ==> t[k] == ' ') && (j < |t| ==> t[j] != ' ')
    decreases |t| - i
  {
    if i < |t| && t[i] == ' ' then SpacesEnd(t, i + 1) else i
  }

  /** Where the first quote from position i on is, or the end. */
  function Quote(t: string, i: nat): (j: nat)
    requires i <= |t|
    ensures i <= j <= |t| && (forall k :: i <= k < j ==> t[k] != '"') && (j < |t| ==> t[j] == '"')
    decreases |t| - i
  {
    if i < |t| && t[i] != '"' then Quote(t, i + 1) else i
  }

  predicate At(key: string, t: string, i: nat) {
    i + |key| <= |t| && forall k :: i <= k < i + |key| ==> t[k] == key[k - i]
  }

  /** Whether the regular expression matches the line that begins at i: spaces, `key`, one or more
      characters other than quotes (newlines among them), and a quote. */
  predicate Matches(key: string, t: string, i: nat)
    requires i <= |t|
  {
    var s := SpacesEnd(t, i);
    At(key, t, s) && s + |key| < Quote(t, s + |key|) < |t|
  }

  function MatchAt(key: string, t: string, i: nat): Match
    requires i <= |t| && Matches(key, t, i)
  {
    var b := SpacesEnd(t, i) + |key|;
    Match(i, t[b..Quote(t, b)])
  }

  function MatchEnd(key: string, t: string, i: nat): (e: nat)
    requires i <= |t| && Matches(key, t, i)
    ensures i < e <= |t|
  {
    Quote(t, SpacesEnd(t, i) + |key|) + 1
  }

  /** finditer: the leftmost matches from position i on, without overlap; `newLine` says whether a line
      begins at i. */
  function FindAll(key: string, t: string, i: nat, newLine: bool): seq<Match>
    requires i <= |t|
    decreases |t| - i
  {
    if i == |t| then []
    else if newLine && Matches(key, t, i) then
      [MatchAt(key, t, i)] + FindAll(key, t, MatchEnd(key, t, i), false)
    else FindAll(key, t, i + 1, t[i] == '\n')
  }

  // ---------------------------------------------------------------- the same as a scanner

  /** Where a scanner of the text stands: in a line that cannot match, in the spaces in front of a line
      that began at `start`, behind the first k characters of `key`, or in a version. */
  datatype State = Off | Line(start: nat) | Prefix(start: nat, k: nat) | Version(start: nat, v: string)

  function Next(key: string, st: State, i: nat, c: char): State {
    match st
    case Off => Fail(i, c)
    case Line(start) => if c == ' ' then st else if c == '<' then Prefix(start, 1) else Fail(i, c)
    case Prefix(start, k) =>
      if k >= |key| || c != key[k] then Fail(i, c)
      else if k + 1 == |key| then Version(start, "")
      else Prefix(start, k + 1)
    case Version(start, v) => if c == '"' then Off else Version(start, v + [c])
  }

  function Fail(i: nat, c: char): State {
    if c == '\n' then Line(i + 1) else Off
  }

  function Found(st: State, c: char): seq<Match> {
    if st.Version? && st.v != "" && c == '"' then [Match(st.start, st.v)] else []
  }

  /** The state at position n for state st at position i. */
  function After(key: string, st: State, t: string, i: nat, n: nat): State
    requires i <= n <= |t|
    decreases n - i
  {
    if i == n then st else After(key, Next(key, st, i, t[i]), t, i + 1, n)
  }

  /** What is found between them. */
  function Scan(key: string, st: State, t: string, i: nat, n: nat): seq<Match>
    requires i <= n <= |t|
    decreases n - i
  {
    if i == n then [] else Found(st, t[i]) + Scan(key, Next(key, st, i, t[i]), t, i + 1, n)
  }

  lemma {:induction false} ScanCut(key: string, st: State, t: string, i: nat, m: nat, n: nat)
    requires i <= m <= n <= |t|
    ensures After(key, st, t, i, n) == After(key, After(key, st, t, i, m), t, m, n)
    ensures Scan(key, st, t, i, n) == Scan(key, st, t, i, m) + Scan(key, After(key, st, t, i, m), t, m, n)
    decreases m - i
  {
    if i < m {
      ScanCut(key, Next(key, st, i, t[i]), t, i + 1, m, n);
    }
  }

  // ---------------------------------------------------------------- the scanner finds what the search finds

  lemma {:induction false} NothingWithoutQuote(key: string, st: State, t: string, i: nat, n: nat)
    requires i <= n <= |t| && forall k :: i <= k < n ==> t[k] != '"'
    ensures Scan(key, st, t, i, n) == []
    decreases n - i
  {
    if i < n {
      NothingWithoutQuote(key, Next(key, st, i, t[i]), t, i + 1, n);
    }
  }

  /** A version that ends is found and leaves the scanner off. */
  lemma {:induction false} VersionEnds(key: string, start: nat, v: string, t: string, i: nat, e: nat)
    requires i <= e < |t| && t[e] == '"' && forall k :: i <= k < e ==> t[k] != '"'
    ensures After(key, Version(start, v), t, i, e + 1) == Off
    ensures Scan(key, Version(start, v), t, i, e + 1) == if v + t[i..e] == "" then [] else [Match(start, v + t[i..e])]
    decreases e - i
  {
    if i < e {
      VersionEnds(key, start, v + [t[i]], t, i + 1, e);
      assert v + [t[i]] + t[i + 1..e] == v + t[i..e];
    } else {
      assert v + t[i..e] == v;
    }
  }

  lemma {:induction false} OffStays(key: string, t: string, i: nat, j: nat)
    requires i <= j <= |t| && forall k :: i <= k < j ==> t[k] != '\n'
    ensures After(key, Off, t, i, j) == Off && Scan(key, Off, t, i, j) == []
    decreases j - i
  {
    if i < j {
      OffStays(key, t, i + 1, j);
    }
  }

  lemma {:induction false} LineStays(key: string, start: nat, t: string, i: nat, j: nat)
    requires i <= j <= |t| && forall k :: i <= k < j ==> t[k] == ' '
    ensures After(key, Line(start), t, i, j) == Line(start) && Scan(key, Line(start), t, i, j) == []
    decreases j - i
  {
    if i < j {
      LineStays(key, start, t, i + 1, j);
    }
  }

  lemma {:induction false} PrefixRuns(key: string, start: nat, k: nat, t: string, s: nat)
    requires 0 < k < |key| && At(key, t, s)
    ensures After(key, Prefix(start, k), t, s + k, s + |key|) == Version(start, "")
    ensures Scan(key, Prefix(start, k), t, s + k, s + |key|) == []
    decreases |key| - k
  {
    assert t[s + k] == key[k];
    if k + 1 < |key| {
      PrefixRuns(key, start, k + 1, t, s);
    }
  }

  /** The key is read from the beginning of a line. */
  lemma KeyRuns(key: string, start: nat, t: string, s: nat)
    requires Opening(key) && At(key, t, s)
    ensures After(key, Line(start), t, s, s + |key|) == Version(start, "")
    ensures Scan(key, Line(start), t, s, s + |key|) == []
  {
    assert t[s] == key[0];
    PrefixRuns(key, start, 1, t, s);
  }

  lemma {:induction false} PrefixFails(key: string, start: nat, k: nat, t: string, s: nat)
    requires Opening(key) && 0 < k < |key| && s + k <= |t| && !At(key, t, s)
    requires forall j :: s <= j < s + k ==> t[j] == key[j - s]
    ensures Scan(key, Prefix(start, k), t, s + k, |t|) == Scan(key, Off, t, s + k, |t|)
    decreases |key| - k
  {
    if s + k < |t| && t[s + k] == key[k] && k + 1 < |key| {
      PrefixFails(key, start, k + 1, t, s);
    }
  }

  /** A line that matches is found, and the scanner goes on off its end. */
  lemma MatchScanned(key: string, t: string, i: nat)
    requires Opening(key) && i <= |t| && Matches(key, t, i)
    ensures After(key, Line(i), t, i, MatchEnd(key, t, i)) == Off
    ensures Scan(key, Line(i), t, i, MatchEnd(key, t, i)) == [MatchAt(key, t, i)]
  {
    var b := SpacesEnd(t, i) + |key|;
    var e := Quote(t, b);
    assert MatchEnd(key, t, i) == e + 1 && MatchAt(key, t, i) == Match(i, t[b..e]);
    LineRuns(key, t, i, b);
    LineEnds(key, t, i, b, e);
  }

  lemma LineEnds(key: string, t: string, i: nat, b: nat, e: nat)
    requires i <= b < e < |t| && t[e] == '"' && forall k :: b <= k < e ==> t[k] != '"'
    requires After(key, Line(i), t, i, b) == Version(i, "") && Scan(key, Line(i), t, i, b) == []
    ensures After(key, Line(i), t, i, e + 1) == Off
    ensures Scan(key, Line(i), t, i, e + 1) == [Match(i, t[b..e])]
  {
    WholeVersion(key, i, t, b, e);
    Joined(key, Line(i), Version(i, ""), t, i, b, e + 1);
  }

  /** Two stretches, of which the first finds nothing. */
  lemma Joined(key: string, st: State, mid: State, t: string, i: nat, m: nat, n: nat)
    requires i <= m <= n <= |t| && After(key, st, t, i, m) == mid && Scan(key, st, t, i, m) == []
    ensures After(key, st, t, i, n) == After(key, mid, t, m, n)
    ensures Scan(key, st, t, i, n) == Scan(key, mid, t, m, n)
  {
    ScanCut(key, st, t, i, m, n);
  }

  lemma LineRuns(key: string, t: string, i: nat, b: nat)
    requires Opening(key) && i <= |t| && At(key, t, SpacesEnd(t, i)) && b == SpacesEnd(t, i) + |key|
    ensures After(key, Line(i), t, i, b) == Version(i, "") && Scan(key, Line(i), t, i, b) == []
  {
    var s := SpacesEnd(t, i);
    LineStays(key, i, t, i, s);
    KeyRuns(key, i, t, s);
    Joined(key, Line(i), Line(i), t, i, s, s + |key|);
  }

  lemma WholeVersion(key: string, start: nat, t: string, b: nat, e: nat)
    requires b < e < |t| && t[e] == '"' && forall k :: b <= k < e ==> t[k] != '"'
    ensures After(key, Version(start, ""), t, b, e + 1) == Off
    ensures Scan(key, Version(start, ""), t, b, e + 1) == [Match(start, t[b..e])]
  {
    VersionEnds(key, start, "", t, b, e);
    assert "" + t[b..e] == t[b..e];
  }

  /** A line that does not match is as good as none. */
  lemma NoMatchScanned(key: string, t: string, i: nat)
    requires Opening(key) && i <= |t| && !Matches(key, t, i)
    ensures Scan(key, Line(i), t, i, |t|) == Scan(key, Off, t, i, |t|)
  {
    var s := SpacesEnd(t, i);
    LineStays(key, i, t, i, s);
    Joined(key, Line(i), Line(i), t, i, s, |t|);
    OffStays(key, t, i, s);
    Joined(key, Off, Off, t, i, s, |t|);
    NoMatchBehind(key, t, i, s);
  }

  lemma NoMatchBehind(key: string, t: string, start: nat, s: nat)
    requires Opening(key) && s <= |t| && (s < |t| ==> t[s] != ' ')
    requires !(At(key, t, s) && s + |key| < Quote(t, s + |key|) < |t|)
    ensures Scan(key, Line(start), t, s, |t|) == Scan(key, Off, t, s, |t|)
  {
    if At(key, t, s) {
      NoVersion(key, start, t, s);
    } else if s < |t| && t[s] == '<' {
      PrefixFails(key, start, 1, t, s);
    }
  }

  lemma KeyOff(key: string, t: string, s: nat)
    requires Opening(key) && At(key, t, s)
    ensures After(key, Off, t, s, s + |key|) == Off && Scan(key, Off, t, s, s + |key|) == []
  {
    OffStays(key, t, s, s + |key|);
  }

  lemma NoVersion(key: string, start: nat, t: string, s: nat)
    requires Opening(key) && At(key, t, s) && !(s + |key| < Quote(t, s + |key|) < |t|)
    ensures Scan(key, Line(start), t, s, |t|) == Scan(key, Off, t, s, |t|)
  {
    var b := s + |key|;
    KeyRuns(key, start, t, s);
    Joined(key, Line(start), Version(start, ""), t, s, b, |t|);
    KeyOff(key, t, s);
    Joined(key, Off, Off, t, s, b, |t|);
    if Quote(t, b) == |t| {
      NothingWithoutQuote(key, Version(start, ""), t, b, |t|);
      NothingWithoutQuote(key, Off, t, b, |t|);
    }
  }

  /** The scanner finds exactly the matches of the regular expression. */
  lemma {:induction false} ScanIsSearch(key: string, t: string, i: nat, newLine: bool)
    requires Opening(key) && i <= |t|
    ensures FindAll(key, t, i, newLine) == Scan(key, if newLine then Line(i) else Off, t, i, |t|)
    decreases |t| - i
  {
    if i == |t| {
    } else if newLine && Matches(key, t, i) {
      var e := MatchEnd(key, t, i);
      ScanIsSearch(key, t, e, false);
      MatchScanned(key, t, i);
      ScanCut(key, Line(i), t, i, e, |t|);
    } else {
      ScanIsSearch(key, t, i + 1, t[i] == '\n');
      if newLine {
        NoMatchScanned(key, t, i);
      }
    }
  }

  // ---------------------------------------------------------------- where matches start

  function Search(key: string, t: string): seq<Match> {
    FindAll(key, t, 0, true)
  }

  function Versions(ms: seq<Match>): (r: seq<string>)
    ensures |r| == |ms| && forall i :: 0 <= i < |r| ==> r[i] == ms[i].version
  {
    seq(|ms|, i requires 0 <= i < |ms| => ms[i].version)
  }

  lemma {:induction false} ScanSnoc(key: string, st: State, t: string, i: nat, n: nat)
    requires i <= n < |t|
    ensures var before := After(key, st, t, i, n);
            && After(key, st, t, i, n + 1) == Next(key, before, n, t[n])
            && Scan(key, st, t, i, n + 1) == Scan(key, st, t, i, n) + Found(before, t[n])
  {
    ScanCut(key, st, t, i, n, n + 1);
  }

  const START := Line(0)

  /** A state that knows where its line began is right about it, and nothing was found since. */
  lemma {:induction false} StartsLine(key: string, t: string, n: nat)
    requires n <= |t|
    ensures var st := After(key, START, t, 0, n);
            !st.Off? ==>
              && st.start <= n
              && After(key, START, t, 0, st.start) == Line(st.start)
              && Scan(key, START, t, 0, st.start) == Scan(key, START, t, 0, n)
  {
    if n > 0 {
      StartsLine(key, t, n - 1);
      ScanSnoc(key, START, t, 0, n - 1);
    }
  }

  /** At the start of a match the scanner stands at the beginning of a line and has found the matches
      before it. */
  lemma {:induction false} MatchStart(key: string, t: string, n: nat, i: nat)
    requires n <= |t| && i < |Scan(key, START, t, 0, n)|
    ensures var m := Scan(key, START, t, 0, n)[i];
            && m.start <= n
            && After(key, START, t, 0, m.start) == Line(m.start)
            && Scan(key, START, t, 0, m.start) == Scan(key, START, t, 0, n)[..i]
  {
    if n > 0 {
      ScanSnoc(key, START, t, 0, n - 1);
      var before := Scan(key, START, t, 0, n - 1);
      if i < |before| {
        MatchStart(key, t, n - 1, i);
      } else {
        StartsLine(key, t, n - 1);
      }
    }
  }

  predicate Alike(a: State, b: State) {
    match a
    case Off => b.Off?
    case Line(_) => b.Line?
    case Prefix(_, k) => b.Prefix? && b.k == k
    case Version(_, v) => b.Version? && b.v == v
  }

  /** The characters of one text from i to n are those of another, d positions further on. */
  predicate Same(t: string, i: nat, n: nat, u: string, d: int) {
    i <= n <= |t| && 0 <= i + d && n + d <= |u| && forall k :: i <= k < n ==> t[k] == u[k + d]
  }

  /** The same characters are scanned alike wherever they are. */
  lemma {:induction false} Moved(key: string, a: State, t: string, i: nat, n: nat, b: State, u: string, d: int)
    requires Same(t, i, n, u, d) && Alike(a, b)
    ensures Alike(After(key, a, t, i, n), After(key, b, u, i + d, n + d))
    ensures Versions(Scan(key, a, t, i, n)) == Versions(Scan(key, b, u, i + d, n + d))
    decreases n - i
  {
    if i < n {
      var c, x, y := t[i], Next(key, a, i, t[i]), Next(key, b, i + d, t[i]);
      AlikeNext(key, a, i, b, i + d, c);
      Moved(key, x, t, i + 1, n, y, u, d);
      assert u[i + d] == c;
      VersionsConcat(Found(a, c), Scan(key, x, t, i + 1, n));
      VersionsConcat(Found(b, c), Scan(key, y, u, i + 1 + d, n + d));
    }
  }

  lemma AlikeNext(key: string, a: State, i: nat, b: State, j: nat, c: char)
    requires Alike(a, b)
    ensures Alike(Next(key, a, i, c), Next(key, b, j, c)) && Versions(Found(a, c)) == Versions(Found(b, c))
  {
  }

  /** The scan of a piece of text in a given state. */
  function Piece(key: string, st: State, t: string): seq<string> {
    Versions(Scan(key, st, t, 0, |t|))
  }

  function Left(key: string, st: State, t: string): State {
    After(key, st, t, 0, |t|)
  }

  /** Pieces are scanned one after the other. */
  lemma PieceConcat(key: string, st: State, a: string, b: string)
    ensures Piece(key, st, a + b) == Piece(key, st, a) + Piece(key, Left(key, st, a), b)
    ensures Alike(Left(key, st, a + b), Left(key, Left(key, st, a), b))
  {
    var t := a + b;
    ScanCut(key, st, t, 0, |a|, |t|);
    Moved(key, st, t, 0, |a|, st, a, 0);
    Moved(key, After(key, st, t, 0, |a|), t, |a|, |t|, Left(key, st, a), b, -|a|);
    VersionsConcat(Scan(key, st, t, 0, |a|), Scan(key, After(key, st, t, 0, |a|), t, |a|, |t|));
  }

  lemma VersionsConcat(a: seq<Match>, b: seq<Match>)
    ensures Versions(a + b) == Versions(a) + Versions(b)
  {
  }

  lemma PieceAlike(key: string, a: State, b: State, t: string)
    requires Alike(a, b)
    ensures Piece(key, a, t) == Piece(key, b, t) && Alike(Left(key, a, t), Left(key, b, t))
  {
    Moved(key, a, t, 0, |t|, b, t, 0);
  }

  lemma PieceIsSearch(key: string, t: string)
    requires Opening(key)
    ensures Piece(key, START, t) == Versions(Search(key, t))
  {
    ScanIsSearch(key, t, 0, true);
  }

  /** The scanner, behind the text `a`, stands in the spaces in front of a line. */
  predicate Ready(key: string, a: string) {
    Left(key, START, a).Line?
  }

  /** From such a place the rest of the text is searched like a text of its own. */
  lemma SearchSplits(key: string, a: string, b: string)
    requires Opening(key) && Ready(key, a)
    ensures Versions(Search(key, a + b)) == Versions(Search(key, a)) + Versions(Search(key, b))
  {
    PieceIsSearch(key, a + b);
    PieceIsSearch(key, a);
    PieceIsSearch(key, b);
    PieceConcat(key, START, a, b);
    PieceAlike(key, Left(key, START, a), START, b);
  }

  // ---------------------------------------------------------------- the entry

  function Indent(n: nat): (s: string)
    ensures |s| == n && forall i :: 0 <= i < n ==> s[i] == ' '
  {
    seq(n, _ => ' ')
  }

  function Lines(ls: seq<string>): string {
    if ls == [] then "" else (ls[0] + "\n") + Lines(ls[1..])
  }

  /** The first line of an entry. */
  function Head(key: string, version: string, date: string): string {
    Indent(4) + key + (version + ("\" date=\"" + date + "\">"))
  }

  /** The lines behind it. */
  function Tail(notes: seq<string>): seq<string> {
    [Indent(6) + "<description>"] + notes + [Indent(6) + "</description>", Indent(4) + "</release>"]
  }

  function Entry(key: string, version: string, date: string, notes: seq<string>): string {
    Head(key, version, date) + "\n" + Lines(Tail(notes))
  }

  /** The entry as a whole, for the text that opens a release in the file. */
  lemma EntryText(version: string, date: string, notes: seq<string>)
    ensures Entry(RELEASE, version, date, notes) ==
            "    <release version=\"" + version + "\" date=\"" + date + "\">\n" +
            "      <description>\n" + Lines(notes) + "      </description>\n" + "    </release>\n"
  {
    TailText(notes);
    HeadText(version, date);
    EntryPieces(RELEASE, version, date, notes, "    <release version=\"" + version + "\" date=\"" + date + "\">\n",
                "      <description>\n", "      </description>\n", "    </release>\n");
  }

  lemma EntryPieces(key: string, version: string, date: string, notes: seq<string>, head: string, open: string,
                    close: string, end: string)
    requires Head(key, version, date) + "\n" == head
    requires Lines(Tail(notes)) == open + (Lines(notes) + (close + end))
    ensures Entry(key, version, date, notes) == head + open + Lines(notes) + close + end
  {
    Regrouped(head, open, Lines(notes), close, end);
  }

  lemma HeadText(version: string, date: string)
    ensures Head(RELEASE, version, date) + "\n" == "    <release version=\"" + version + "\" date=\"" + date + "\">\n"
  {
    assert Indent(4) + RELEASE == "    <release version=\"";
    assert "\">" + "\n" == "\">\n";
    HeadRegrouped(Indent(4) + RELEASE, version, "\" date=\"", date, "\">", "\n");
  }

  lemma HeadRegrouped(a: string, b: string, c: string, d: string, e: string, f: string)
    ensures a + (b + (c + d + e)) + f == a + b + c + d + (e + f)
  {
  }

  lemma Regrouped(a: string, b: string, c: string, d: string, e: string)
    ensures a + (b + (c + (d + e))) == a + b + c + d + e
  {
  }

  lemma {:induction false} LinesConcat(a: seq<string>, b: seq<string>)
    ensures Lines(a + b) == Lines(a) + Lines(b)
  {
    if a == [] {
      assert a + b == b;
    } else {
      assert (a + b)[1..] == a[1..] + b;
      LinesConcat(a[1..], b);
    }
  }

  lemma TailText(notes: seq<string>)
    ensures Lines(Tail(notes)) ==
            "      <description>\n" + (Lines(notes) + ("      </description>\n" + "    </release>\n"))
  {
    var open, close, end := Indent(6) + "<description>", Indent(6) + "</description>", Indent(4) + "</release>";
    assert Tail(notes) == [open] + (notes + [close, end]);
    assert ([open] + (notes + [close, end]))[1..] == notes + [close, end];
    LinesConcat(notes, [close, end]);
    assert [close, end][1..] == [end] && [end][1..] == [];
    assert Lines([end]) == end + "\n" + Lines([]);
    TailLines();
  }

  lemma TailLines()
    ensures Indent(6) + "<description>" + "\n" == "      <description>\n"
    ensures Indent(6) + "</description>" + "\n" == "      </description>\n"
    ensures Indent(4) + "</release>" + "\n" == "    </release>\n"
  {
    assert Indent(6) == "      " && Indent(4) == "    ";
  }

  predicate OneLine(s: string) {
    forall i :: 0 <= i < |s| ==> s[i] != '\n'
  }

  /** A line that opens or closes an element whose name does not begin with r. */
  predicate Plain(line: string) {
    var s := SpacesEnd(line, 0);
    OneLine(line) && s + 1 < |line| && line[s] == '<' && line[s + 1] != 'r'
  }

  predicate AllPlain(ls: seq<string>) {
    forall i :: 0 <= i < |ls| ==> Plain(ls[i])
  }

  lemma PlainBetween(first: string, ls: seq<string>, last: string)
    requires Plain(first) && AllPlain(ls) && Plain(last)
    ensures AllPlain([first] + ls + [last])
  {
  }

  /** A piece of text in which nothing is found and behind which a line begins. */
  ghost predicate Quiet(key: string, t: string) {
    forall start :: Piece(key, Line(start), t) == [] && Left(key, Line(start), t).Line?
  }

  lemma TagOpens(key: string, start: nat, t: string, s: nat)
    requires Opening(key) && s + 1 < |t| && t[s] == '<' && t[s + 1] != 'r' && t[s + 1] != '\n'
    ensures After(key, Line(start), t, s, s + 2) == Off && Scan(key, Line(start), t, s, s + 2) == []
  {
    ScanSnoc(key, Line(start), t, s, s);
    ScanSnoc(key, Line(start), t, s, s + 1);
  }

  lemma PlainQuiet(key: string, line: string)
    requires Opening(key) && Plain(line)
    ensures Quiet(key, line + "\n")
  {
    var t := line + "\n";
    var s := SpacesEnd(line, 0);
    forall start
      ensures Piece(key, Line(start), t) == [] && Left(key, Line(start), t).Line?
    {
      LineStays(key, start, t, 0, s);
      Joined(key, Line(start), Line(start), t, 0, s, |t|);
      TagOpens(key, start, t, s);
      Joined(key, Line(start), Off, t, s, s + 2, |t|);
      OffStays(key, t, s + 2, |line|);
      Joined(key, Off, Off, t, s + 2, |line|, |t|);
    }
  }

  lemma {:induction false} LinesQuiet(key: string, ls: seq<string>)
    requires Opening(key) && AllPlain(ls)
    ensures Quiet(key, Lines(ls))
  {
    if ls != [] {
      PlainQuiet(key, ls[0]);
      LinesQuiet(key, ls[1..]);
      QuietConcat(key, ls[0] + "\n", Lines(ls[1..]));
    }
  }

  lemma QuietConcat(key: string, a: string, b: string)
    requires Quiet(key, a) && Quiet(key, b)
    ensures Quiet(key, a + b)
  {
    forall start
      ensures Piece(key, Line(start), a + b) == [] && Left(key, Line(start), a + b).Line?
    {
      PieceConcat(key, Line(start), a, b);
      var mid := Left(key, Line(start), a);
      assert Piece(key, Line(mid.start), b) == [] && Left(key, Line(mid.start), b).Line?;
    }
  }

  predicate NoQuote(s: string) {
    forall i :: 0 <= i < |s| ==> s[i] != '"'
  }

  predicate NoSpace(s: string) {
    forall i :: 0 <= i < |s| ==> s[i] != ' '
  }

  /** Where the parts of an entry's first line are. */
  predicate HeadLike(key: string, h: string, version: string) {
    var b := 4 + |key|;
    && b + |version| < |h| - 1
    && (forall k :: 0 <= k < 4 ==> h[k] == ' ') && At(key, h, 4)
    && At(version, h, b) && h[b + |version|] == '"'
    && h[|h| - 1] == '\n' && forall k :: 0 <= k < |h| - 1 ==> h[k] != '\n'
  }

  lemma HeadShape(key: string, version: string, date: string)
    requires Opening(key) && OneLine(version) && OneLine(date)
    ensures HeadLike(key, Head(key, version, date) + "\n", version)
  {
    var rest := "\" date=\"" + date + "\">";
    assert OneLine(rest);
    var h, b := Head(key, version, date) + "\n", 4 + |key|;
    assert h == Indent(4) + key + version + rest + "\n";
    assert h[b + |version|] == rest[0];
  }

  lemma OffToEnd(key: string, h: string, i: nat)
    requires i < |h| && h[|h| - 1] == '\n' && forall k :: i <= k < |h| - 1 ==> h[k] != '\n'
    ensures After(key, Off, h, i, |h|).Line? && Scan(key, Off, h, i, |h|) == []
  {
    OffStays(key, h, i, |h| - 1);
    Joined(key, Off, Off, h, i, |h| - 1, |h|);
  }

  lemma VersionToEnd(key: string, start: nat, v: string, h: string, i: nat, e: nat)
    requires i <= e < |h| - 1 && h[e] == '"' && (forall k :: i <= k < e ==> h[k] != '"')
    requires h[|h| - 1] == '\n' && forall k :: 0 <= k < |h| - 1 ==> h[k] != '\n'
    ensures After(key, Version(start, v), h, i, |h|).Line?
    ensures Scan(key, Version(start, v), h, i, |h|) == if v + h[i..e] == "" then [] else [Match(start, v + h[i..e])]
  {
    VersionEnds(key, start, v, h, i, e);
    OffToEnd(key, h, e + 1);
    Finished(key, Version(start, v), h, i, e + 1);
  }

  /** Two stretches, of which the second is off and finds nothing. */
  lemma Finished(key: string, st: State, t: string, i: nat, m: nat)
    requires i <= m <= |t| && After(key, st, t, i, m) == Off && Scan(key, Off, t, m, |t|) == []
    ensures After(key, st, t, i, |t|) == After(key, Off, t, m, |t|)
    ensures Scan(key, st, t, i, |t|) == Scan(key, st, t, i, m)
  {
    ScanCut(key, st, t, i, m, |t|);
  }

  /** Read at the beginning of a line, an entry's first line yields its version. */
  lemma HeadOnLine(key: string, start: nat, h: string, version: string)
    requires Opening(key) && HeadLike(key, h, version)
    ensures Left(key, Line(start), h).Line?
    ensures Piece(key, Line(start), h) == [version] <==> version != "" && NoQuote(version)
  {
    var b := 4 + |key|;
    var e := Quote(h, b);
    HeadRuns(key, start, h);
    VersionToEnd(key, start, "", h, b, e);
    Joined(key, Line(start), Version(start, ""), h, 0, b, |h|);
    FirstPart(start, h, b, e, version);
  }

  lemma FirstPart(start: nat, h: string, b: nat, e: nat, version: string)
    requires b <= e < |h| && (forall k :: b <= k < e ==> h[k] != '"') && h[e] == '"'
    requires At(version, h, b) && b + |version| < |h| && h[b + |version|] == '"'
    ensures Versions(if "" + h[b..e] == "" then [] else [Match(start, "" + h[b..e])]) == [version] <==>
            version != "" && NoQuote(version)
  {
    var n := e - b;
    assert n <= |version|;
    assert forall k :: 0 <= k < |version| ==> version[k] == h[b + k];
    var first := "" + h[b..e];
    assert first == version[..n];
    assert Versions([Match(start, first)]) == [first];
    if n < |version| {
      assert version[n] == '"';
      assert [first][0] != [version][0];
    } else {
      assert version[..n] == version;
    }
  }

  lemma HeadRuns(key: string, start: nat, h: string)
    requires Opening(key) && |h| >= 4 && (forall k :: 0 <= k < 4 ==> h[k] == ' ') && At(key, h, 4)
    ensures After(key, Line(start), h, 0, 4 + |key|) == Version(start, "")
    ensures Scan(key, Line(start), h, 0, 4 + |key|) == []
  {
    LineStays(key, start, h, 0, 4);
    KeyRuns(key, start, h, 4);
    Joined(key, Line(start), Line(start), h, 0, 4, 4 + |key|);
  }

  lemma HeadElsewhere(key: string, st: State, h: string, version: string)
    requires Opening(key) && HeadLike(key, h, version) && NoSpace(version) && !st.Line?
    ensures Left(key, st, h).Line? && Piece(key, st, h) != [version]
  {
    match st
    case Off =>
      OffToEnd(key, h, 0);
    case Prefix(_, _) =>
      ScanSnoc(key, st, h, 0, 0);
      ScanSnoc(key, st, h, 0, 1);
      assert h[0] == ' ' && h[1] == ' ';
      Joined(key, st, Off, h, 0, 2, |h|);
      OffToEnd(key, h, 2);
    case Version(start, v) =>
      var e := Quote(h, 0);
      assert h[3 + |key|] == key[|key| - 1];
      VersionToEnd(key, start, v, h, 0, e);
      assert (v + h[0..e])[|v|] == h[0] == ' ';
  }

  lemma IndentedPlain(n: nat, body: string)
    requires OneLine(body) && |body| > 1 && body[0] == '<' && body[1] != 'r'
    ensures Plain(Indent(n) + body)
  {
    var line := Indent(n) + body;
    var s := SpacesEnd(line, 0);
    assert line[n] == '<';
    assert s == n;
  }

  lemma TailPlain(notes: seq<string>)
    requires AllPlain(notes)
    ensures AllPlain(Tail(notes))
  {
    IndentedPlain(6, "<description>");
    IndentedPlain(6, "</description>");
    IndentedPlain(4, "</release>");
  }

  /** Of an entry the search finds exactly its version if and only if it is read at the beginning of a
      line and the version is neither empty nor quoted. */
  lemma EntryFound(key: string, st: State, version: string, date: string, notes: seq<string>)
    requires Opening(key) && OneLine(version) && OneLine(date) && NoSpace(version)
    requires AllPlain(notes)
    ensures Left(key, st, Entry(key, version, date, notes)).Line?
    ensures Piece(key, st, Entry(key, version, date, notes)) == [version] <==>
            st.Line? && version != "" && NoQuote(version)
  {
    var h, ls := Head(key, version, date) + "\n", Tail(notes);
    HeadShape(key, version, date);
    if st.Line? {
      HeadOnLine(key, st.start, h, version);
    } else {
      HeadElsewhere(key, st, h, version);
    }
    TailPlain(notes);
    LinesQuiet(key, ls);
    PieceConcat(key, st, h, Lines(ls));
    assert Piece(key, Line(Left(key, st, h).start), Lines(ls)) == [];
  }

  /** Inserting an entry between `a` and `b` adds its version there, and nothing else, if and only if the
      search stands at the beginning of a line behind `a` and the version is neither empty nor quoted. */
  lemma EntryInserted(key: string, a: string, b: string, version: string, date: string, notes: seq<string>)
    requires Opening(key) && OneLine(version) && OneLine(date) && NoSpace(version)
    requires AllPlain(notes)
    ensures Versions(Search(key, a + Entry(key, version, date, notes) + b)) ==
            Versions(Search(key, a)) + [version] + Versions(Search(key, b)) <==>
            Ready(key, a) && version != "" && NoQuote(version)
  {
    var e := Entry(key, version, date, notes);
    var st := Left(key, START, a);
    PieceIsSearch(key, a);
    PieceIsSearch(key, b);
    PieceIsSearch(key, a + e + b);
    EntryFound(key, st, version, date, notes);
    PieceConcat(key, START, a, e);
    PieceConcat(key, START, a + e, b);
    PieceAlike(key, Left(key, START, a + e), START, b);
    Middle(Piece(key, START, a), Piece(key, st, e), [version], Piece(key, START, b));
  }

  lemma Middle<T>(a: seq<T>, x: seq<T>, y: seq<T>, b: seq<T>)
    ensures a + x + b == a + y + b <==> x == y
  {
    if a + x + b == a + y + b {
      assert |x| == |y|;
      assert x == (a + x + b)[|a|..|a| + |x|];
      assert y == (a + y + b)[|a|..|a| + |y|];
    }
  }

  // ---------------------------------------------------------------- versions

  /** version_key: the numbers in a version; `run` is the value of the digits read last. */
  function Numbers(s: string, run: Option<nat>): seq<nat> {
    if s == "" then (if run.Some? then [run.value] else [])
    else if IsDigit(s[0]) then
      Numbers(s[1..], Some((if run.Some? then 10 * run.value else 0) + (s[0] as int - '0' as int)))
    else (if run.Some? then [run.value] else []) + Numbers(s[1..], None)
  }

  function VersionKey(version: string): seq<nat> {
    Numbers(version, None)
  }

  /** The order of lists: by the first difference, a proper prefix first. */
  predicate Less(a: seq<nat>, b: seq<nat>) {
    b != [] && (a == [] || a[0] < b[0] || (a[0] == b[0] && Less(a[1..], b[1..])))
  }

  predicate Older(v: string, w: string) {
    Less(VersionKey(v), VersionKey(w))
  }

  lemma {:induction false} LessTransitive(a: seq<nat>, b: seq<nat>, c: seq<nat>)
    requires Less(a, b) && Less(b, c)
    ensures Less(a, c)
  {
    if a != [] && a[0] == b[0] == c[0] {
      LessTransitive(a[1..], b[1..], c[1..]);
    }
  }

  /** One list is less than another if they agree up to a place at which the first has ended or has the
      smaller number. */
  lemma {:induction false} LessAtDifference(a: seq<nat>, b: seq<nat>)
    ensures Less(a, b) <==>
            exists k :: 0 <= k <= |a| && k < |b| && a[..k] == b[..k] && (k == |a| || a[k] < b[k])
  {
    if a == [] && b != [] {
      assert a[..0] == b[..0];
    } else if a != [] && b != [] {
      LessAtDifference(a[1..], b[1..]);
      if a[0] < b[0] {
        assert a[..0] == b[..0];
      }
      DifferenceBehind(a, b);
    }
  }

  lemma DifferenceBehind(a: seq<nat>, b: seq<nat>)
    requires a != [] && b != []
    ensures forall k :: 0 <= k <= |a[1..]| && k < |b[1..]| && a[0] == b[0] ==>
              (a[1..][..k] == b[1..][..k] <==> a[..k + 1] == b[..k + 1])
    ensures forall k :: 0 < k <= |a| && k < |b| && a[..k] == b[..k] ==>
              a[0] == b[0] && a[1..][..k - 1] == b[1..][..k - 1]
  {
    forall k | 0 <= k <= |a[1..]| && k < |b[1..]| && a[0] == b[0]
      ensures a[1..][..k] == b[1..][..k] <==> a[..k + 1] == b[..k + 1]
    {
      assert a[..k + 1] == [a[0]] + a[1..][..k] && b[..k + 1] == [b[0]] + b[1..][..k];
    }
    forall k | 0 < k <= |a| && k < |b| && a[..k] == b[..k]
      ensures a[0] == b[0] && a[1..][..k - 1] == b[1..][..k - 1]
    {
      assert a[..k][0] == b[..k][0];
      assert a[..k][1..] == a[1..][..k - 1] && b[..k][1..] == b[1..][..k - 1];
    }
  }

  /** Numbers with dots between them. */
  function Dotted(ns: seq<nat>): string {
    if ns == [] then "" else if |ns| == 1 then Decimal(ns[0]) else Decimal(ns[0]) + ("." + Dotted(ns[1..]))
  }

  /** The key of a dotted version is its list of numbers. */
  lemma {:induction false} KeyOfDotted(ns: seq<nat>)
    ensures VersionKey(Dotted(ns)) == ns
  {
    if |ns| == 1 {
      NumberRead(ns[0], "");
      assert Decimal(ns[0]) + "" == Decimal(ns[0]);
      assert ns == [ns[0]];
    } else if |ns| > 1 {
      var rest := "." + Dotted(ns[1..]);
      NumberRead(ns[0], rest);
      assert rest[1..] == Dotted(ns[1..]);
      KeyOfDotted(ns[1..]);
      assert ns == [ns[0]] + ns[1..];
    }
  }

  /** Dotted versions are compared by their numbers, the first difference deciding. */
  lemma DottedOlder(a: seq<nat>, b: seq<nat>)
    ensures Older(Dotted(a), Dotted(b)) <==>
            exists k :: 0 <= k <= |a| && k < |b| && a[..k] == b[..k] && (k == |a| || a[k] < b[k])
  {
    KeyOfDotted(a);
    KeyOfDotted(b);
    LessAtDifference(a, b);
  }

  lemma NumberRead(n: nat, rest: string)
    ensures Numbers(Decimal(n) + rest, None) == Numbers(rest, Some(n))
  {
    var s := Decimal(n);
    DecimalDigits(n);
    DecimalParses(n);
    var d := s[0] as int - '0' as int;
    assert IsDigit(s[0]);
    assert (s + rest)[1..] == s[1..] + rest;
    DigitsRead(s[1..], d, rest);
  }

  lemma {:induction false} DigitsRead(s: string, acc: nat, rest: string)
    requires forall i :: 0 <= i < |s| ==> IsDigit(s[i])
    ensures ParseDigits(s, acc).Some? && Numbers(s + rest, Some(acc)) == Numbers(rest, Some(ParseDigits(s, acc).value))
  {
    if s == "" {
      assert s + rest == rest;
    } else {
      assert (s + rest)[1..] == s[1..] + rest;
      DigitsRead(s[1..], 10 * acc + (s[0] as int - '0' as int), rest);
    }
  }

  // ---------------------------------------------------------------- notes

  /** str.replace for a single character. */
  function Replace(s: string, c: char, text: string): string {
    if s == "" then "" else (if s[0] == c then text else [s[0]]) + Replace(s[1..], c, text)
  }

  /** html.escape. */
  function Escape(s: string): string {
    Replace(Replace(Replace(Replace(Replace(s,
      '&', "&amp;"), '<', "&lt;"), '>', "&gt;"), '"', "&quot;"), '\'', "&#x27;")
  }

  function EscapeChar(c: char): string {
    match c
    case '&' => "&amp;"
    case '<' => "&lt;"
    case '>' => "&gt;"
    case '"' => "&quot;"
    case '\'' => "&#x27;"
    case _ => [c]
  }

  lemma {:induction false} ReplaceConcat(a: string, b: string, c: char, text: string)
    ensures Replace(a + b, c, text) == Replace(a, c, text) + Replace(b, c, text)
  {
    if a == "" {
      assert a + b == b;
    } else {
      assert (a + b)[1..] == a[1..] + b;
      ReplaceConcat(a[1..], b, c, text);
    }
  }

  lemma {:induction false} ReplaceNothing(s: string, c: char, text: string)
    requires c !in s
    ensures Replace(s, c, text) == s
  {
    if s != "" {
      ReplaceNothing(s[1..], c, text);
    }
  }

  lemma EscapeConcat(a: string, b: string)
    ensures Escape(a + b) == Escape(a) + Escape(b)
  {
    var a1, b1 := Replace(a, '&', "&amp;"), Replace(b, '&', "&amp;");
    var a2, b2 := Replace(a1, '<', "&lt;"), Replace(b1, '<', "&lt;");
    var a3, b3 := Replace(a2, '>', "&gt;"), Replace(b2, '>', "&gt;");
    var a4, b4 := Replace(a3, '"', "&quot;"), Replace(b3, '"', "&quot;");
    ReplaceConcat(a, b, '&', "&amp;");
    ReplaceConcat(a1, b1, '<', "&lt;");
    ReplaceConcat(a2, b2, '>', "&gt;");
    ReplaceConcat(a3, b3, '"', "&quot;");
    ReplaceConcat(a4, b4, '\'', "&#x27;");
  }

  /** What the replacements behind the first leave alone. */
  lemma Kept(t: string)
    requires forall i :: 0 <= i < |t| ==> t[i] != '<' && t[i] != '>' && t[i] != '"' && t[i] != '\''
    ensures Replace(Replace(Replace(Replace(t, '<', "&lt;"), '>', "&gt;"), '"', "&quot;"), '\'', "&#x27;") == t
  {
    ReplaceNothing(t, '<', "&lt;");
    ReplaceNothing(t, '>', "&gt;");
    ReplaceNothing(t, '"', "&quot;");
    ReplaceNothing(t, '\'', "&#x27;");
  }

  lemma EscapeOne(c: char)
    ensures Escape([c]) == EscapeChar(c)
  {
    ReplaceOne(c, '&', "&amp;");
    if c == '&' {
      Kept("&amp;");
    } else {
      EscapeOpen(c);
    }
  }

  lemma EscapeOpen(c: char)
    requires c != '&'
    ensures Replace(Replace(Replace(Replace([c], '<', "&lt;"), '>', "&gt;"), '"', "&quot;"), '\'', "&#x27;") ==
            EscapeChar(c)
  {
    ReplaceOne(c, '<', "&lt;");
    if c == '<' {
      KeptBehind("&lt;");
    } else {
      EscapeOther(c);
    }
  }

  lemma KeptBehind(t: string)
    requires forall i :: 0 <= i < |t| ==> t[i] != '>' && t[i] != '"' && t[i] != '\''
    ensures Replace(Replace(Replace(t, '>', "&gt;"), '"', "&quot;"), '\'', "&#x27;") == t
  {
    ReplaceNothing(t, '>', "&gt;");
    ReplaceNothing(t, '"', "&quot;");
    ReplaceNothing(t, '\'', "&#x27;");
  }

  lemma EscapeOther(c: char)
    requires c != '&' && c != '<'
    ensures Replace(Replace(Replace([c], '>', "&gt;"), '"', "&quot;"), '\'', "&#x27;") == EscapeChar(c)
  {
    ReplaceOne(c, '>', "&gt;");
    if c == '>' {
      ReplaceNothing("&gt;", '"', "&quot;");
      ReplaceNothing("&gt;", '\'', "&#x27;");
    } else {
      ReplaceOne(c, '"', "&quot;");
      ReplaceOne(c, '\'', "&#x27;");
      ReplaceNothing("&quot;", '\'', "&#x27;");
    }
  }

  lemma ReplaceOne(d: char, c: char, text: string)
    ensures Replace([d], c, text) == if d == c then text else [d]
  {
    assert [d][1..] == "";
    assert text + "" == text;
  }

  /** What an XML parser makes of escaped text. */
  function Unescape(s: string): string {
    if s == "" then ""
    else if "&amp;" <= s then "&" + Unescape(s[5..])
    else if "&lt;" <= s then "<" + Unescape(s[4..])
    else if "&gt;" <= s then ">" + Unescape(s[4..])
    else if "&quot;" <= s then "\"" + Unescape(s[6..])
    else if "&#x27;" <= s then "'" + Unescape(s[6..])
    else [s[0]] + Unescape(s[1..])
  }

  lemma UnescapeStep(c: char, s: string)
    ensures Unescape(EscapeChar(c) + s) == [c] + Unescape(s)
  {
    var e := EscapeChar(c);
    assert (e + s)[|e|..] == s;
    assert (e + s)[0] == e[0];
    if c != '&' && c != '<' && c != '>' && c != '"' && c != '\'' {
      assert (e + s)[1..] == s;
    } else {
      assert e + s != "" && e <= e + s && (e + s)[1] == e[1];
      assert |e| > 2 && (e + s)[2] == e[2];
    }
  }

  lemma EscapeStep(s: string)
    requires s != ""
    ensures Escape(s) == EscapeChar(s[0]) + Escape(s[1..])
  {
    EscapeOne(s[0]);
    assert s == [s[0]] + s[1..];
    EscapeConcat([s[0]], s[1..]);
  }

  function EscapeAll(s: string): string {
    if s == "" then "" else EscapeChar(s[0]) + EscapeAll(s[1..])
  }

  lemma {:induction false} EscapeIsAll(s: string)
    ensures Escape(s) == EscapeAll(s)
  {
    if s != "" {
      EscapeIsAll(s[1..]);
      EscapeStep(s);
    }
  }

  lemma {:induction false} UnescapeAll(s: string)
    ensures Unescape(EscapeAll(s)) == s
  {
    if s != "" {
      UnescapeAll(s[1..]);
      UnescapeStep(s[0], EscapeAll(s[1..]));
      assert s == [s[0]] + s[1..];
    }
  }

  lemma {:induction false} EscapeHarmless(s: string, i: nat)
    requires i < |EscapeAll(s)|
    ensures EscapeAll(s)[i] != '<' && EscapeAll(s)[i] != '>' && EscapeAll(s)[i] != '"' && EscapeAll(s)[i] != '\''
    ensures OneLine(s) ==> EscapeAll(s)[i] != '\n'
  {
    var e := EscapeChar(s[0]);
    if i < |e| {
      assert s[0] != '\n' ==> e[i] != '\n';
    } else {
      EscapeHarmless(s[1..], i - |e|);
    }
  }

  /** Escaping loses nothing, and leaves no character that could open or close a tag or an attribute. */
  lemma EscapeRoundTrip(s: string)
    ensures Unescape(Escape(s)) == s
    ensures forall i :: 0 <= i < |Escape(s)| ==>
              Escape(s)[i] != '<' && Escape(s)[i] != '>' && Escape(s)[i] != '"' && Escape(s)[i] != '\''
    ensures OneLine(s) ==> OneLine(Escape(s))
  {
    EscapeIsAll(s);
    UnescapeAll(s);
    forall i | 0 <= i < |EscapeAll(s)|
      ensures EscapeAll(s)[i] != '<' && EscapeAll(s)[i] != '>' && EscapeAll(s)[i] != '"' && EscapeAll(s)[i] != '\''
      ensures OneLine(s) ==> EscapeAll(s)[i] != '\n'
    {
      EscapeHarmless(s, i);
    }
  }

  function Subjects(log: seq<string>, skip: string -> bool): seq<string> {
    if log == [] then [] else
      var n := |log| - 1;
      var before := Subjects(log[..n], skip);
      if log[n] != "" && !skip(log[n]) then before + [log[n]] else before
  }

  function Item(subject: string): string {
    Indent(10) + ("<li>" + Escape(subject) + "</li>")
  }

  function Items(subjects: seq<string>): (r: seq<string>)
    ensures |r| == |subjects| && forall i :: 0 <= i < |r| ==> r[i] == Item(subjects[i])
  {
    seq(|subjects|, i requires 0 <= i < |subjects| => Item(subjects[i]))
  }

  /** release_notes: the lines for the commit subjects of a log; `skip` stands for SKIP_SUBJECT. */
  function Notes(log: seq<string>, skip: string -> bool): seq<string> {
    var subjects := Subjects(log, skip);
    if subjects == [] then [Indent(8) + "<p>Maintenance release.</p>"]
    else [Indent(8) + "<ul>"] + Items(if |subjects| > 10 then subjects[..10] else subjects) + [Indent(8) + "</ul>"]
  }

  lemma {:induction false} SubjectsOneLine(log: seq<string>, skip: string -> bool)
    requires forall i :: 0 <= i < |log| ==> OneLine(log[i])
    ensures forall i :: 0 <= i < |Subjects(log, skip)| ==> OneLine(Subjects(log, skip)[i])
  {
    if log != [] {
      SubjectsOneLine(log[..|log| - 1], skip);
    }
  }

  /** The notes hold the first ten subjects of the log, in its order, that are neither empty nor skipped, escaped
      and each on a line of its own; without such a subject they are one fixed line. */
  lemma NotesShown(log: seq<string>, skip: string -> bool) returns (at: seq<nat>)
    ensures Increasing(at) && forall i: nat :: i in at <==> i < |log| && log[i] != "" && !skip(log[i])
    ensures at == [] ==> Notes(log, skip) == ["        <p>Maintenance release.</p>"]
    ensures at != [] ==>
              var notes, n := Notes(log, skip), if |at| > 10 then 10 else |at|;
              && |notes| == n + 2 && notes[0] == "        <ul>" && notes[n + 1] == "        </ul>"
              && forall j :: 0 <= j < n ==>
                   at[j] in at && notes[1 + j] == "          <li>" + Escape(log[at[j]]) + "</li>"
  {
    at := SubjectPlaces(log, skip);
    Indents();
    var subjects := Subjects(log, skip);
    if subjects != [] {
      NotesLines(subjects, Items(if |subjects| > 10 then subjects[..10] else subjects), Notes(log, skip));
    }
  }

  lemma NotesLines(subjects: seq<string>, items: seq<string>, notes: seq<string>)
    requires items == Items(if |subjects| > 10 then subjects[..10] else subjects)
    requires notes == [Indent(8) + "<ul>"] + items + [Indent(8) + "</ul>"]
    ensures |items| == if |subjects| > 10 then 10 else |subjects|
    ensures |notes| == |items| + 2 && notes[0] == "        <ul>" && notes[|items| + 1] == "        </ul>"
    ensures forall j :: 0 <= j < |items| ==> notes[1 + j] == "          <li>" + Escape(subjects[j]) + "</li>"
  {
    Indents();
    forall j | 0 <= j < |items|
      ensures notes[1 + j] == "          <li>" + Escape(subjects[j]) + "</li>"
    {
      assert notes[1 + j] == items[j];
      ItemText(subjects[j]);
    }
  }

  lemma ItemText(subject: string)
    ensures Item(subject) == "          <li>" + Escape(subject) + "</li>"
  {
    assert Indent(10) == "          ";
    assert Indent(10) + ("<li>" + Escape(subject) + "</li>") == Indent(10) + "<li>" + Escape(subject) + "</li>";
  }

  lemma Indents()
    ensures Indent(4) == "    " && Indent(6) == "      " && Indent(8) == "        "
    ensures Indent(8) + "<ul>" == "        <ul>" && Indent(8) + "</ul>" == "        </ul>"
    ensures Indent(8) + "<p>Maintenance release.</p>" == "        <p>Maintenance release.</p>"
  {
  }

  lemma {:induction false} SubjectPlaces(log: seq<string>, skip: string -> bool) returns (at: seq<nat>)
    ensures Increasing(at) && forall i: nat :: i in at <==> i < |log| && log[i] != "" && !skip(log[i])
    ensures |Subjects(log, skip)| == |at|
    ensures forall j :: 0 <= j < |at| ==> at[j] in at && Subjects(log, skip)[j] == log[at[j]]
  {
    if log == [] {
      at := [];
    } else {
      var n := |log| - 1;
      at := SubjectPlaces(log[..n], skip);
      if log[n] != "" && !skip(log[n]) {
        at := at + [n];
      }
    }
  }

  lemma ItemPlain(subject: string)
    requires OneLine(subject)
    ensures Plain(Item(subject))
  {
    EscapeRoundTrip(subject);
    var body := "<li>" + Escape(subject) + "</li>";
    assert OneLine("<li>") && OneLine("</li>");
    IndentedPlain(10, body);
  }

  /** Whatever the subjects are, no line of the notes can be taken for a release. */
  lemma NotesPlain(log: seq<string>, skip: string -> bool)
    requires forall i :: 0 <= i < |log| ==> OneLine(log[i])
    ensures AllPlain(Notes(log, skip))
  {
    SubjectsOneLine(log, skip);
    var subjects := Subjects(log, skip);
    if subjects == [] {
      IndentedPlain(8, "<p>Maintenance release.</p>");
    } else {
      var shown := if |subjects| > 10 then subjects[..10] else subjects;
      forall i | 0 <= i < |shown|
        ensures Plain(Items(shown)[i])
      {
        ItemPlain(shown[i]);
      }
      IndentedPlain(8, "<ul>");
      IndentedPlain(8, "</ul>");
      PlainBetween(Indent(8) + "<ul>", Items(shown), Indent(8) + "</ul>");
    }
  }

  // ---------------------------------------------------------------- the command

  const CLOSING := "  </releases>\n"

  /** Where `s` occurs first from position i on, or the end. */
  function FirstAt(s: string, t: string, i: nat): (j: nat)
    requires i <= |t|
    ensures i <= j <= |t| && (forall k :: i <= k < j ==> !At(s, t, k)) && (j < |t| ==> At(s, t, j))
    decreases |t| - i
  {
    if i < |t| && !At(s, t, i) then FirstAt(s, t, i + 1) else i
  }

  /** The `in` of two strings, the first of which is not empty. */
  predicate Contains(s: string, t: string) {
    exists i :: 0 <= i < |t| && At(s, t, i)
  }

  /** Number of the versions before the first that is older than v. */
  function FirstOlder(vs: seq<string>, v: string): (k: nat)
    ensures k <= |vs| && (forall i :: 0 <= i < k ==> !Older(vs[i], v)) && (k < |vs| ==> Older(vs[k], v))
  {
    if vs == [] || Older(vs[0], v) then 0 else 1 + FirstOlder(vs[1..], v)
  }

  function Needle(key: string, version: string): string {
    key + version + "\""
  }

  datatype Outcome = AlreadyListed | NoReleases | Written(text: string)

  function InsertionPoint(key: string, closing: string, text: string, version: string): (at: nat)
    requires Opening(key)
    ensures at <= |text|
  {
    var ms := Search(key, text);
    var k := FirstOlder(Versions(ms), version);
    if k < |ms| then (StartsInText(key, text, k); ms[k].start) else FirstAt(closing, text, 0)
  }

  /** cmd_metainfo, for the text in front of a version and the tag that closes the releases. */
  function Sync(key: string, closing: string, text: string, version: string, date: string, notes: seq<string>): Outcome
    requires Opening(key)
  {
    if Contains(Needle(key, version), text) then AlreadyListed
    else if !Contains(closing, text) then NoReleases
    else
      var at := InsertionPoint(key, closing, text, version);
      Written(text[..at] + Entry(key, version, date, notes) + text[at..])
  }

  function RemovePrefix(tag: string): string {
    if tag != "" && tag[0] == 'v' then tag[1..] else tag
  }

  function Metainfo(text: string, tag: string, date: string, log: seq<string>, skip: string -> bool): Outcome {
    ReleaseOpens();
    Sync(RELEASE, CLOSING, text, RemovePrefix(tag), date, Notes(log, skip))
  }

  /** What comes before a match is searched as before, and the search stands at a line behind it. */
  lemma StartsInText(key: string, text: string, k: nat)
    requires Opening(key) && k < |Search(key, text)|
    ensures var at := Search(key, text)[k].start;
            && at <= |text|
            && Ready(key, text[..at])
            && Versions(Search(key, text[..at])) == Versions(Search(key, text))[..k]
  {
    ScanIsSearch(key, text, 0, true);
    MatchStart(key, text, |text|, k);
    var at := Search(key, text)[k].start;
    var a := text[..at];
    ScanIsSearch(key, a, 0, true);
    Moved(key, START, text, 0, at, START, a, 0);
  }

  /** A release line of the text holds the text that guards against a second entry. */
  lemma {:induction false} ListedFound(key: string, t: string, i: nat, newLine: bool, version: string)
    requires i <= |t| && version in Versions(FindAll(key, t, i, newLine))
    ensures Contains(Needle(key, version), t)
    decreases |t| - i
  {
    if newLine && Matches(key, t, i) {
      var m, e := MatchAt(key, t, i), MatchEnd(key, t, i);
      if m.version == version {
        MatchGuards(key, t, i, version);
      } else {
        ListedBehind(m, FindAll(key, t, e, false), version);
        ListedFound(key, t, e, false, version);
      }
    } else {
      ListedFound(key, t, i + 1, t[i] == '\n', version);
    }
  }

  lemma MatchGuards(key: string, t: string, i: nat, v: string)
    requires i <= |t| && Matches(key, t, i) && MatchAt(key, t, i).version == v
    ensures Contains(Needle(key, v), t)
  {
    var s := SpacesEnd(t, i);
    VersionGuards(key, t, s, Quote(t, s + |key|), v);
  }

  lemma VersionGuards(key: string, t: string, s: nat, e: nat, v: string)
    requires At(key, t, s) && s + |key| <= e < |t| && t[e] == '"' && v == t[s + |key|..e]
    ensures Contains(Needle(key, v), t)
  {
    VersionAt(key, t, s, e, v);
    NeedleAt(key, v, t, s);
  }

  lemma VersionAt(key: string, t: string, s: nat, e: nat, v: string)
    requires s + |key| <= e < |t| && t[e] == '"' && v == t[s + |key|..e]
    ensures At(v, t, s + |key|) && At("\"", t, s + |key| + |v|)
  {
  }

  lemma ListedBehind(m: Match, rest: seq<Match>, version: string)
    requires version in Versions([m] + rest) && m.version != version
    ensures version in Versions(rest)
  {
    VersionsConcat([m], rest);
    assert Versions([m]) == [m.version];
  }

  lemma NeedleAt(key: string, version: string, t: string, s: nat)
    requires At(key, t, s) && At(version, t, s + |key|) && At("\"", t, s + |key| + |version|)
    ensures Contains(Needle(key, version), t)
  {
    AtConcat(key, version, t, s);
    AtConcat(key + version, "\"", t, s);
  }

  lemma AtConcat(a: string, b: string, t: string, i: nat)
    requires At(a, t, i) && At(b, t, i + |a|)
    ensures At(a + b, t, i)
  {
  }

  // ---------------------------------------------------------------- what the command does to the releases

  /** What is asked of the arguments: a tag and a date are single lines, a tag holds no space, and so on
      for the lines of the notes. */
  predicate Clean(version: string, date: string, notes: seq<string>) {
    OneLine(version) && NoSpace(version) && OneLine(date) && AllPlain(notes)
  }

  /** The entry is added among the releases, after those that are not older, if and only if the version is
      neither empty nor quoted and the search stands at the beginning of a line at the insertion point; it
      does so whenever some release is older. The text around the entry is kept. */
  lemma SyncInserts(key: string, closing: string, text: string, version: string, date: string, notes: seq<string>)
    requires Opening(key) && Clean(version, date, notes)
    requires Sync(key, closing, text, version, date, notes).Written?
    ensures var at, k := InsertionPoint(key, closing, text, version), FirstOlder(Versions(Search(key, text)), version);
            var updated := Sync(key, closing, text, version, date, notes).text;
            var before, behind := Versions(Search(key, text[..at])), Versions(Search(key, text[at..]));
            && text[..at] <= updated && |updated| >= |text| && updated[|updated| - (|text| - at)..] == text[at..]
            && (Versions(Search(key, updated)) == before + [version] + behind <==>
                Ready(key, text[..at]) && version != "" && NoQuote(version))
            && (Ready(key, text[..at]) ==> Versions(Search(key, text)) == before + behind)
            && (k < |Search(key, text)| ==> Ready(key, text[..at]) && before == Versions(Search(key, text))[..k])
            && (k == |Search(key, text)| ==> At(closing, text, at) && forall i :: 0 <= i < at ==> !At(closing, text, i))
  {
    var at := InsertionPoint(key, closing, text, version);
    var a, b := text[..at], text[at..];
    var k := FirstOlder(Versions(Search(key, text)), version);
    assert text == a + b;
    EntryInserted(key, a, b, version, date, notes);
    if Ready(key, a) {
      SearchSplits(key, a, b);
    }
    if k < |Search(key, text)| {
      StartsInText(key, text, k);
    }
  }

  /** Releases are listed from the newest on. */
  predicate Descending(vs: seq<string>) {
    forall i, j :: 0 <= i < j < |vs| ==> !Older(vs[i], vs[j])
  }

  /** No version of the first list is older than one of the second. */
  predicate NoneOlder(a: seq<string>, b: seq<string>) {
    forall i, j :: 0 <= i < |a| && 0 <= j < |b| ==> !Older(a[i], b[j])
  }

  lemma DescendingConcat(a: seq<string>, b: seq<string>)
    ensures Descending(a + b) <==> Descending(a) && Descending(b) && NoneOlder(a, b)
  {
    var c := a + b;
    assert forall i :: 0 <= i < |c| ==> c[i] == if i < |a| then a[i] else b[i - |a|];
    if Descending(c) {
      forall i, j | 0 <= i < j < |a| ensures !Older(a[i], a[j]) {
        assert c[i] == a[i] && c[j] == a[j];
      }
      forall i, j | 0 <= i < j < |b| ensures !Older(b[i], b[j]) {
        assert c[|a| + i] == b[i] && c[|a| + j] == b[j];
      }
      forall i, j | 0 <= i < |a| && 0 <= j < |b| ensures !Older(a[i], b[j]) {
        assert c[i] == a[i] && c[|a| + j] == b[j];
      }
    }
  }

  /** A version may be inserted if none in front is older, and it is none older than one behind. */
  lemma DescendingInsert(before: seq<string>, v: string, behind: seq<string>)
    requires NoneOlder(before, [v])
    ensures Descending(before + [v] + behind) <==> Descending(before + behind) && NoneOlder([v], behind)
  {
    DescendingConcat(before + [v], behind);
    DescendingConcat(before, [v]);
    DescendingConcat(before, behind);
    var most := before + [v];
    assert NoneOlder(most, behind) <==> NoneOlder(before, behind) && NoneOlder([v], behind) by {
      assert most[|before|] == v;
      assert forall i :: 0 <= i < |before| ==> most[i] == before[i];
    }
  }

  lemma {:induction false} LessIrreflexive(a: seq<nat>)
    ensures !Less(a, a)
  {
    if a != [] {
      LessIrreflexive(a[1..]);
    }
  }

  lemma OlderTransitive(u: string, v: string, w: string)
    requires Older(u, v) && Older(v, w)
    ensures Older(u, w) && u != w
  {
    LessTransitive(VersionKey(u), VersionKey(v), VersionKey(w));
    LessIrreflexive(VersionKey(u));
  }

  lemma DescendingBehind(behind: seq<string>, v: string)
    requires Descending(behind) && behind != [] && Older(behind[0], v)
    ensures NoneOlder([v], behind)
  {
    forall j | 0 <= j < |behind|
      ensures !Older(v, behind[j])
    {
      if Older(v, behind[j]) {
        OlderTransitive(behind[0], v, behind[j]);
      }
    }
  }

  /** Where the entry is added at all, the releases descend afterwards if and only if they did before;
      if no release was older, also none behind the insertion point may be newer. */
  lemma SyncKeepsOrder(key: string, closing: string, text: string, version: string, date: string, notes: seq<string>)
    requires Opening(key) && Clean(version, date, notes)
    requires Sync(key, closing, text, version, date, notes).Written?
    requires Ready(key, text[..InsertionPoint(key, closing, text, version)]) && version != "" && NoQuote(version)
    ensures var at, k := InsertionPoint(key, closing, text, version), FirstOlder(Versions(Search(key, text)), version);
            var updated := Sync(key, closing, text, version, date, notes).text;
            Descending(Versions(Search(key, updated))) <==>
            && Descending(Versions(Search(key, text)))
            && (k == |Search(key, text)| ==> NoneOlder([version], Versions(Search(key, text[at..]))))
  {
    var vs := Versions(Search(key, text));
    var at, k := InsertionPoint(key, closing, text, version), FirstOlder(vs, version);
    var before, behind := Versions(Search(key, text[..at])), Versions(Search(key, text[at..]));
    SyncInserts(key, closing, text, version, date, notes);
    InsertedOrder(vs, before, behind, version);
  }

  lemma InsertedOrder(vs: seq<string>, before: seq<string>, behind: seq<string>, v: string)
    requires vs == before + behind && (FirstOlder(vs, v) < |vs| ==> before == vs[..FirstOlder(vs, v)])
    ensures Descending(before + [v] + behind) <==>
            Descending(vs) && (FirstOlder(vs, v) == |vs| ==> NoneOlder([v], behind))
  {
    var k := FirstOlder(vs, v);
    assert forall i :: 0 <= i < |before| ==> vs[i] == before[i];
    DescendingInsert(before, v, behind);
    if k < |vs| && Descending(vs) {
      DescendingConcat(before, behind);
      assert behind[0] == vs[k];
      DescendingBehind(behind, v);
    }
  }

  predicate NoDuplicates(vs: seq<string>) {
    forall i, j :: 0 <= i < j < |vs| ==> vs[i] != vs[j]
  }

  lemma UniqueInsert(before: seq<string>, v: string, behind: seq<string>)
    requires NoDuplicates(before + behind) && v !in before + behind
    ensures NoDuplicates(before + [v] + behind)
  {
    var all, most, n := before + [v] + behind, before + behind, |before|;
    forall i, j | 0 <= i < j < |all|
      ensures all[i] != all[j]
    {
      if i != n {
        assert all[i] == most[if i < n then i else i - 1];
      }
      if j != n {
        assert all[j] == most[if j < n then j else j - 1];
      }
    }
  }

  /** A release is entered once: it was not listed before, and guards against itself in the next run,
      whatever the date and the notes are then. */
  lemma SyncOnce(key: string, closing: string, text: string, version: string, date: string, notes: seq<string>,
                 again: string, other: seq<string>)
    requires Opening(key) && Sync(key, closing, text, version, date, notes).Written?
    ensures version !in Versions(Search(key, text))
    ensures var updated := Sync(key, closing, text, version, date, notes).text;
            Sync(key, closing, updated, version, again, other) == AlreadyListed
  {
    var at := InsertionPoint(key, closing, text, version);
    if version in Versions(Search(key, text)) {
      ListedFound(key, text, 0, true, version);
      assert false;
    }
    EntryGuards(key, text[..at], version, date, notes, text[at..]);
  }

  /** So no version is ever listed twice. */
  lemma SyncKeepsUnique(key: string, closing: string, text: string, version: string, date: string, notes: seq<string>)
    requires Opening(key) && Clean(version, date, notes)
    requires Sync(key, closing, text, version, date, notes).Written?
    requires Ready(key, text[..InsertionPoint(key, closing, text, version)]) && version != "" && NoQuote(version)
    requires NoDuplicates(Versions(Search(key, text)))
    ensures NoDuplicates(Versions(Search(key, Sync(key, closing, text, version, date, notes).text)))
  {
    var at := InsertionPoint(key, closing, text, version);
    SyncOnce(key, closing, text, version, date, notes, date, notes);
    SyncInserts(key, closing, text, version, date, notes);
    UniqueInsert(Versions(Search(key, text[..at])), version, Versions(Search(key, text[at..])));
  }

  lemma EntryGuards(key: string, a: string, version: string, date: string, notes: seq<string>, b: string)
    ensures Contains(Needle(key, version), a + Entry(key, version, date, notes) + b)
  {
    var rest := " date=\"" + date + "\">" + "\n" + Lines(Tail(notes)) + b;
    var t := a + Entry(key, version, date, notes) + b;
    var s := Needle(key, version);
    assert t == a + Indent(4) + s + rest;
    assert At(s, t, |a| + 4);
  }

  /** Where some release is older, exactly the version is added to the list, in front of the first older
      release, and the list descends, or is free of duplicates, as before. */
  lemma SyncLists(key: string, closing: string, text: string, version: string, date: string, notes: seq<string>)
    requires Opening(key) && Clean(version, date, notes) && version != "" && NoQuote(version)
    requires Sync(key, closing, text, version, date, notes).Written?
    requires FirstOlder(Versions(Search(key, text)), version) < |Search(key, text)|
    ensures var updated := Sync(key, closing, text, version, date, notes).text;
            var before, after := Versions(Search(key, text)), Versions(Search(key, updated));
            var k := FirstOlder(before, version);
            && after == before[..k] + [version] + before[k..]
            && (Descending(after) <==> Descending(before))
            && (NoDuplicates(before) ==> NoDuplicates(after))
  {
    var vs := Versions(Search(key, text));
    var k, at := FirstOlder(vs, version), InsertionPoint(key, closing, text, version);
    SyncInserts(key, closing, text, version, date, notes);
    assert vs[k..] == Versions(Search(key, text[at..]));
    SyncKeepsOrder(key, closing, text, version, date, notes);
    if NoDuplicates(vs) {
      SyncKeepsUnique(key, closing, text, version, date, notes);
    }
  }

  lemma NotTheEnd(vs: seq<string>, i: nat, v: string)
    requires i < |vs| && Older(vs[i], v)
    ensures FirstOlder(vs, v) < |vs|
  {
  }

  /** The command, given the tag of a release that is newer than some listed one. The version is the tag without
      a leading "v"; running the command again changes nothing. */
  lemma MetainfoLists(text: string, tag: string, version: string, date: string, log: seq<string>,
                      skip: string -> bool)
    requires tag == "v" + version || (tag == version && !("v" <= version))
    requires OneLine(version) && NoSpace(version) && NoQuote(version) && version != "" && OneLine(date)
    requires forall i :: 0 <= i < |log| ==> OneLine(log[i])
    requires Metainfo(text, tag, date, log, skip).Written?
    requires exists i :: 0 <= i < |Search(RELEASE, text)| && Older(Search(RELEASE, text)[i].version, version)
    ensures var updated := Metainfo(text, tag, date, log, skip).text;
            var before, after := Versions(Search(RELEASE, text)), Versions(Search(RELEASE, updated));
            var k := FirstOlder(before, version);
            && after == before[..k] + [version] + before[k..]
            && (Descending(after) <==> Descending(before))
            && (NoDuplicates(before) ==> NoDuplicates(after))
            && Metainfo(updated, tag, date, log, skip) == AlreadyListed
  {
    ReleaseOpens();
    NotesPlain(log, skip);
    PrefixRemoved(tag, version);
    var notes := Notes(log, skip);
    var i :| 0 <= i < |Search(RELEASE, text)| && Older(Search(RELEASE, text)[i].version, version);
    NotTheEnd(Versions(Search(RELEASE, text)), i, version);
    SyncLists(RELEASE, CLOSING, text, version, date, notes);
    SyncOnce(RELEASE, CLOSING, text, version, date, notes, date, notes);
  }

  lemma PrefixRemoved(tag: string, version: string)
    requires tag == "v" + version || (tag == version && !("v" <= version))
    ensures RemovePrefix(tag) == version
  {
  }

  /** When nothing is written: a text with an entry for the version, and else one without a closing tag. */
  lemma NothingWritten(text: string, tag: string, version: string, date: string, log: seq<string>,
                       skip: string -> bool)
    requires tag == "v" + version || (tag == version && !("v" <= version))
    ensures var listed := Occurs("<release version=\"" + version + "\"", text);
            && (Metainfo(text, tag, date, log, skip) == AlreadyListed <==> listed)
            && (Metainfo(text, tag, date, log, skip) == NoReleases <==> !listed && !Occurs("  </releases>\n", text))
  {
    ReleaseOpens();
    PrefixRemoved(tag, version);
    ContainsExactly(Needle(RELEASE, version), text);
    ContainsExactly(CLOSING, text);
  }

  ghost predicate Occurs(s: string, t: string) {
    exists a: string, b: string :: t == a + s + b
  }

  lemma ContainsExactly(s: string, t: string)
    requires s != ""
    ensures Contains(s, t) <==> Occurs(s, t)
  {
    if Contains(s, t) {
      var i :| 0 <= i < |t| && At(s, t, i);
      assert t == t[..i] + s + t[i + |s|..];
    }
    if a, b :| t == a + s + b {
      assert At(s, t, |a|);
    }
  }

  /** Between 1.2 and 1.0 is where 1.1 belongs. */
  lemma BetweenReleases()
    ensures FirstOlder(["1.2", "1.0"], "1.1") == 1
    ensures Descending(["1.2", "1.1", "1.0"]) && !Descending(["1.0", "1.2"])
  {
    DottedPair("1.2", 1, 2);
    DottedPair("1.1", 1, 1);
    DottedPair("1.0", 1, 0);
    PairsInOrder("1.2", "1.1", "1.0", 2, 1, 0);
  }

  lemma DottedPair(v: string, m: nat, n: nat)
    requires m < 10 && n < 10 && v == [Digit(m), '.', Digit(n)]
    ensures VersionKey(v) == [m, n]
  {
    assert Dotted([m, n]) == [Digit(m)] + ("." + Dotted([n]));
    assert Dotted([m, n]) == v;
    KeyOfDotted([m, n]);
  }

  lemma PairsInOrder(u: string, v: string, w: string, i: nat, j: nat, k: nat)
    requires VersionKey(u) == [1, i] && VersionKey(v) == [1, j] && VersionKey(w) == [1, k] && i > j > k
    ensures FirstOlder([u, w], v) == 1 && Descending([u, v, w]) && !Descending([w, u])
  {
    MinorDecides(i, j);
    MinorDecides(j, k);
    MinorDecides(i, k);
    var pair, turned := [u, w], [w, u];
    assert pair[1..] == [w] && Older(turned[0], turned[1]);
  }

  lemma MinorDecides(i: nat, j: nat)
    requires i > j
    ensures Less([1, j], [1, i]) && !Less([1, i], [1, j])
  {
    assert [1, i][1..] == [i] && [1, j][1..] == [j];
  }

  lemma {:induction false} StaysOut(key: string, st: State, t: string, i: nat, n: nat)
    requires i <= n <= |t| && !st.Line? && forall k :: i <= k < n ==> t[k] != '\n'
    ensures !After(key, st, t, i, n).Line?
    decreases n - i
  {
    if i < n {
      StaysOut(key, Next(key, st, i, t[i]), t, i + 1, n);
    }
  }

  lemma NotWithin(s: string, t: string, k: nat)
    requires k <= |t| && s != "" && s[|s| - 1] == '"' && forall i :: 0 <= i < |t| ==> t[i] != '"'
    ensures !At(s, t, k)
  {
    if At(s, t, k) {
      AtEnds(s, t, k);
    }
  }

  lemma AtEnds(s: string, t: string, k: nat)
    requires At(s, t, k) && s != ""
    ensures t[k] == s[0] && t[k + |s| - 1] == s[|s| - 1]
  {
  }

  lemma FirstBehind(s: string, a: string, t: string)
    requires |a| + |s| <= |t| && t == a + t[|a|..] && s <= t[|a|..] && s != "" && s[0] !in a
    ensures FirstAt(s, t, 0) == |a|
  {
    assert At(s, t, |a|) by {
      assert t[|a|..][..|s|] == s;
    }
    forall k | 0 <= k < |a|
      ensures !At(s, t, k)
    {
      assert t[k] == a[k];
      if At(s, t, k) {
        AtEnds(s, t, k);
      }
    }
  }

  /** An insertion point inside a line is not one: where the closing tag follows other text on its line,
      and nothing is listed, the entry that is written is not found again. */
  lemma ClosedMidLine(key: string, closing: string, a: string, version: string, date: string, notes: seq<string>)
    requires Opening(key) && Clean(version, date, notes) && version != "" && NoQuote(version)
    requires a != "" && a[0] == '<' && OneLine(a) && NoQuote(a) && closing != "" && NoQuote(closing) && closing[0] !in a
    ensures var outcome := Sync(key, closing, a + closing, version, date, notes);
            outcome.Written? && Versions(Search(key, outcome.text)) != [version]
  {
    InsertedMidLine(key, closing, a, version);
    NotReady(key, a);
    SyncInserts(key, closing, a + closing, version, date, notes);
    NothingListed(key, a, closing);
  }

  lemma InsertedMidLine(key: string, closing: string, a: string, version: string)
    requires Opening(key) && NoQuote(a) && closing != "" && NoQuote(closing) && closing[0] !in a
    ensures var text := a + closing;
            && !Contains(Needle(key, version), text) && Contains(closing, text)
            && InsertionPoint(key, closing, text, version) == |a|
            && text[..|a|] == a && text[|a|..] == closing
  {
    var text := a + closing;
    assert NoQuote(text);
    assert text[..|a|] == a && text[|a|..] == closing;
    NothingListed(key, text, closing);
    forall k | 0 <= k <= |text| ensures !At(Needle(key, version), text, k) {
      NotWithin(Needle(key, version), text, k);
    }
    FirstBehind(closing, a, text);
  }

  lemma NothingListed(key: string, a: string, b: string)
    requires Opening(key) && NoQuote(a) && NoQuote(b)
    ensures Search(key, a) == [] && Search(key, b) == []
  {
    ScanIsSearch(key, a, 0, true);
    ScanIsSearch(key, b, 0, true);
    NothingWithoutQuote(key, START, a, 0, |a|);
    NothingWithoutQuote(key, START, b, 0, |b|);
  }

  lemma NotReady(key: string, a: string)
    requires a != "" && a[0] == '<' && OneLine(a)
    ensures !Ready(key, a)
  {
    StaysOut(key, Prefix(0, 1), a, 1, |a|);
  }

  /** For example with the element for the releases opened and closed on one line. */
  lemma ClosedOnOneLine()
    ensures Opening(RELEASE)
    ensures var outcome := Sync(RELEASE, CLOSING, "<releases>" + CLOSING, "1.0", "2026-10-20", []);
            outcome.Written? && Versions(Search(RELEASE, outcome.text)) != ["1.0"]
  {
    ReleaseOpens();
    ClosedMidLine(RELEASE, CLOSING, "<releases>", "1.0", "2026-10-20", []);
  }
}
