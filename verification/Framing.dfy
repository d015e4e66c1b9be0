/** Message framing of the Language Server Protocol ("Base Protocol": Header Part and Content Part),
    as scripts/format-staged.py writes and reads it. A byte is a char; ASCII is everything below 128. */
module Framing {

  import opened Options

  datatype ReadError =
    | Closed            // RuntimeError: end of stream among the headers
    | ClosedMidMessage  // RuntimeError: end of stream inside the body
    | NotAscii          // UnicodeDecodeError
    | NoLength          // KeyError: no content-length header
    | BadLength         // ValueError of int()

  /** What one read yields, and the bytes it leaves unread. */
  datatype Frame = Body(body: string, rest: string) | Failed(error: ReadError, rest: string)

  // ---------------------------------------------------------------- pieces of a header line

  /** Length of what readline() returns: through the first newline, or everything. */
  function LineLength(data: string): (n: nat)
    ensures n <= |data|
    ensures data != [] ==> n > 0
  {
    if data == [] then 0 else if data[0] == '\n' then 1 else 1 + LineLength(data[1..])
  }

  predicate IsAscii(line: string) {
    forall i :: 0 <= i < |line| ==> line[i] < '\U{80}'
  }

  function StripRight(s: string, strip: set<char>): string {
    if s != [] && s[|s| - 1] in strip then StripRight(s[..|s| - 1], strip) else s
  }

  function StripLeft(s: string, strip: set<char>): string {
    if s != [] && s[0] in strip then StripLeft(s[1..], strip) else s
  }

  const LINE_END: set<char> := {'\r', '\n'}

  /** The ASCII characters for which str.isspace holds. */
  const SPACE: set<char> :=
    {' ', '\t', '\n', '\U{0B}', '\U{0C}', '\r', '\U{1C}', '\U{1D}', '\U{1E}', '\U{1F}'}

  function Strip(s: string): string {
    StripLeft(StripRight(s, SPACE), SPACE)
  }

  function Lower(s: string): (r: string)
    ensures |r| == |s|
  {
    seq(|s|, i requires 0 <= i < |s| => LowerChar(s[i]))
  }

  function LowerChar(c: char): char {
    if 'A' <= c <= 'Z' then c + ' ' else c
  }

  /** str.partition(":"): the text before the first colon and the text after it. */
  function Key(line: string): string {
    if line == [] || line[0] == ':' then [] else [line[0]] + Key(line[1..])
  }

  function Value(line: string): string {
    if line == [] then [] else if line[0] == ':' then line[1..] else Value(line[1..])
  }

  // ---------------------------------------------------------------- numbers

  predicate IsDigit(c: char) { '0' <= c <= '9' }

  function Digit(n: nat): char
    requires n < 10
  {
    "0123456789"[n]
  }

  function Decimal(n: nat): (s: string)
    ensures s != []
  {
    if n < 10 then [Digit(n)] else Decimal(n / 10) + [Digit(n % 10)]
  }

  /** int() on ASCII text: a sign, then digits with single underscores between them. */
  function ParseInt(s: string): Option<int> {
    var negative := s != [] && s[0] == '-';
    var digits := if s != [] && (s[0] == '-' || s[0] == '+') then s[1..] else s;
    if digits == [] || !IsDigit(digits[0]) then None else
      match ParseDigits(digits, 0)
      case None => None
      case Some(n) => Some(if negative then -(n as int) else n as int)
  }

  function ParseDigits(s: string, acc: nat): Option<nat> {
    if s == [] then Some(acc)
    else if IsDigit(s[0]) then ParseDigits(s[1..], 10 * acc + (s[0] as int - '0' as int))
    else if s[0] == '_' && |s| > 1 && IsDigit(s[1]) then ParseDigits(s[1..], acc)
    else None
  }

  // ---------------------------------------------------------------- reading and writing frames

  datatype Header = Fields(fields: map<string, string>, rest: string) | Malformed(error: ReadError, rest: string)

  function ReadHeader(data: string, fields: map<string, string>): (h: Header)
    ensures h.Fields? ==> |h.rest| < |data|
    decreases |data|
  {
    if data == [] then Malformed(Closed, []) else
      var n := LineLength(data);
      if !IsAscii(data[..n]) then Malformed(NotAscii, data[n..]) else
        var line := StripRight(data[..n], LINE_END);
        if line == [] then Fields(fields, data[n..])
        else ReadHeader(data[n..], fields[Lower(Strip(Key(line))) := Strip(Value(line))])
  }

  const LENGTH_KEY := "content-length"

  function ReadFrame(data: string): (f: Frame)
    ensures f.Body? ==> |f.rest| < |data|
  {
    match ReadHeader(data, map[])
    case Malformed(e, rest) => Failed(e, rest)
    case Fields(fields, rest) =>
      if LENGTH_KEY !in fields then Failed(NoLength, rest) else
        match ParseInt(fields[LENGTH_KEY])
        case None => Failed(BadLength, rest)
        case Some(n) => Take(rest, n)
  }

  /** A read of a stream that is not at its end always consumes something. */
  lemma {:induction false} ReadShrinks(data: string)
    ensures data != [] ==> |ReadFrame(data).rest| < |data|
  {
    if data != [] {
      HeaderShrinks(data, map[]);
    }
  }

  lemma {:induction false} HeaderShrinks(data: string, fields: map<string, string>)
    requires data != []
    ensures |ReadHeader(data, fields).rest| < |data|
    decreases |data|
  {
    var n := LineLength(data);
    var line := StripRight(data[..n], LINE_END);
    if data[n..] != [] {
      HeaderShrinks(data[n..], fields[Lower(Strip(Key(line))) := Strip(Value(line))]);
    }
  }

  /** The body loop: nothing at all for a length below one. */
  function Take(data: string, n: int): (f: Frame)
    ensures f.Body? ==> |f.rest| <= |data|
  {
    if n <= 0 then Body([], data)
    else if n <= |data| then Body(data[..n], data[n..])
    else Failed(ClosedMidMessage, [])
  }

  function Head(n: nat): string {
    "Content-Length: " + Decimal(n) + "\r\n"
  }

  function WriteFrame(body: string): string {
    Head(|body|) + "\r\n" + body
  }

  function WriteFrames(bodies: seq<string>): string {
    if bodies == [] then [] else WriteFrame(bodies[0]) + WriteFrames(bodies[1..])
  }

  /** All frames of a stream, in order; None if some read fails. */
  function ReadFrames(data: string): Option<seq<string>>
    decreases |data|
  {
    if data == [] then Some([]) else
      match ReadFrame(data)
      case Failed(_, _) => None
      case Body(body, rest) =>
        match ReadFrames(rest)
        case None => None
        case Some(bodies) => Some([body] + bodies)
  }

  // ---------------------------------------------------------------- round trip

  lemma {:induction false} DecimalDigits(n: nat)
    ensures forall i :: 0 <= i < |Decimal(n)| ==> IsDigit(Decimal(n)[i])
  {
    if n >= 10 {
      DecimalDigits(n / 10);
    }
  }

  lemma {:induction false} ParseDigitsAppend(s: string, c: char, acc: nat)
    requires (forall i :: 0 <= i < |s| ==> IsDigit(s[i])) && IsDigit(c)
    ensures ParseDigits(s, acc).Some?
    ensures ParseDigits(s + [c], acc) == Some(10 * ParseDigits(s, acc).value + (c as int - '0' as int))
  {
    if s == [] {
      assert [] + [c] == [c];
      assert ParseDigits([c], acc) == ParseDigits([c][1..], 10 * acc + (c as int - '0' as int));
    } else {
      assert (s + [c])[1..] == s[1..] + [c];
      ParseDigitsAppend(s[1..], c, 10 * acc + (s[0] as int - '0' as int));
    }
  }

  lemma {:induction false} DecimalParses(n: nat)
    ensures ParseDigits(Decimal(n), 0) == Some(n)
  {
    if n < 10 {
      assert ParseDigits(Decimal(n), 0) == ParseDigits(Decimal(n)[1..], n);
    } else {
      DecimalParses(n / 10);
      DecimalDigits(n / 10);
      ParseDigitsAppend(Decimal(n / 10), Digit(n % 10), 0);
    }
  }

  lemma ParseIntDecimal(n: nat)
    ensures ParseInt(Decimal(n)) == Some(n)
  {
    DecimalDigits(n);
    DecimalParses(n);
    assert IsDigit(Decimal(n)[0]);
  }

  /** Digits with single underscores between them. */
  ghost predicate Numeral(s: string) {
    && s != "" && IsDigit(s[0]) && IsDigit(s[|s| - 1])
    && (forall i :: 0 <= i < |s| ==> IsDigit(s[i]) || s[i] == '_')
    && (forall i, j :: 0 <= i < j < |s| && j == i + 1 ==> IsDigit(s[i]) || IsDigit(s[j]))
  }

  function Bare(s: string): string {
    if s == "" then "" else (if s[0] == '_' then "" else [s[0]]) + Bare(s[1..])
  }

  /** Behind a digit, exactly the rest of a numeral parses. */
  lemma {:induction false} ParsesNumeral(s: string, acc: nat)
    requires s != "" && IsDigit(s[0])
    ensures ParseDigits(s[1..], acc).Some? <==> Numeral(s)
    decreases |s|
  {
    if |s| > 1 && IsDigit(s[1]) {
      NumeralBehind(s, 1);
      assert s[1..][1..] == s[2..];
      ParsesNumeral(s[1..], 10 * acc + (s[1] as int - '0' as int));
    } else if |s| > 2 && s[1] == '_' && IsDigit(s[2]) {
      NumeralBehind(s, 2);
      assert s[1..][1..] == s[2..];
      assert ParseDigits(s[1..], acc) == ParseDigits(s[2..], acc);
      ParsesNumeral(s[2..], 10 * acc + (s[2] as int - '0' as int));
    } else if |s| > 1 {
      NoNumeral(s);
    }
  }

  lemma NoNumeral(s: string)
    requires |s| > 1 && !IsDigit(s[1]) && !(|s| > 2 && s[1] == '_' && IsDigit(s[2]))
    ensures !Numeral(s)
  {
    if |s| > 2 {
      assert !(IsDigit(s[1]) || IsDigit(s[2])) || s[1] != '_';
    }
  }

  /** A numeral goes on in a numeral at its next digit. */
  lemma NumeralBehind(s: string, n: nat)
    requires 1 <= n <= 2 && n < |s| && IsDigit(s[0]) && IsDigit(s[n]) && (n == 2 ==> s[1] == '_')
    ensures Numeral(s) <==> Numeral(s[n..])
  {
    var rest := s[n..];
    if Numeral(s) {
      forall i, j | 0 <= i < j < |rest| && j == i + 1
        ensures IsDigit(rest[i]) || IsDigit(rest[j])
      {
        assert rest[i] == s[n + i] && rest[j] == s[n + j];
      }
    } else if Numeral(rest) {
      NumeralInFront(s, n);
    }
  }

  lemma NumeralInFront(s: string, n: nat)
    requires 1 <= n <= 2 && n < |s| && IsDigit(s[0]) && IsDigit(s[n]) && (n == 2 ==> s[1] == '_')
    requires Numeral(s[n..])
    ensures Numeral(s)
  {
    var rest := s[n..];
    assert s[|s| - 1] == rest[|rest| - 1];
    forall i | 0 <= i < |s|
      ensures IsDigit(s[i]) || s[i] == '_'
    {
      if i >= n {
        assert s[i] == rest[i - n];
      }
    }
    forall i, j | 0 <= i < j < |s| && j == i + 1
      ensures IsDigit(s[i]) || IsDigit(s[j])
    {
      if i >= n {
        assert s[i] == rest[i - n] && s[j] == rest[j - n];
      }
    }
  }

  /** Underscores do not count. */
  lemma {:induction false} ParseBare(s: string, acc: nat)
    requires ParseDigits(s, acc).Some?
    ensures ParseDigits(Bare(s), acc) == ParseDigits(s, acc)
    decreases |s|
  {
    if s != "" {
      if IsDigit(s[0]) {
        ParseBare(s[1..], 10 * acc + (s[0] as int - '0' as int));
        assert Bare(s)[1..] == Bare(s[1..]);
      } else {
        ParseBare(s[1..], acc);
        assert Bare(s) == Bare(s[1..]);
      }
    }
  }

  lemma NumeralParses(s: string)
    ensures Numeral(s) <==> s != "" && IsDigit(s[0]) && ParseDigits(s, 0).Some?
  {
    if s != "" && IsDigit(s[0]) {
      var d: nat := s[0] as int - '0' as int;
      FirstDigit(s, d);
      ParsesNumeral(s, d);
    }
  }

  lemma FirstDigit(s: string, d: nat)
    requires s != "" && IsDigit(s[0]) && d == s[0] as int - '0' as int
    ensures ParseDigits(s, 0) == ParseDigits(s[1..], d)
  {
  }

  /** int() takes a numeral, with a minus or a plus in front or none, and nothing else; underscores do not
      count. */
  lemma ParseIntExactly(s: string, digits: string)
    requires digits == if s != "" && (s[0] == '-' || s[0] == '+') then s[1..] else s
    ensures ParseInt(s).Some? <==> Numeral(digits)
    ensures Numeral(digits) ==>
              var n := ParseDigits(Bare(digits), 0);
              n.Some? && ParseInt(s) == Some(if s[0] == '-' then -(n.value as int) else n.value as int)
  {
    NumeralParses(digits);
    if Numeral(digits) {
      ParseBare(digits, 0);
    }
  }

  lemma {:induction false} LineLengthAt(line: string, rest: string)
    requires line != [] && line[|line| - 1] == '\n'
    requires forall i :: 0 <= i < |line| - 1 ==> line[i] != '\n'
    ensures LineLength(line + rest) == |line|
  {
    assert (line + rest)[1..] == line[1..] + rest;
    if |line| > 1 {
      LineLengthAt(line[1..], rest);
    }
  }

  lemma {:induction false} KeyValueAt(key: string, value: string)
    requires ':' !in key
    ensures Key(key + ":" + value) == key && Value(key + ":" + value) == value
  {
    var line := key + ":" + value;
    if key == [] {
      assert line[1..] == value;
    } else {
      assert line[1..] == key[1..] + ":" + value;
      KeyValueAt(key[1..], value);
    }
  }

  // ---------------------------------------------------------------- header sections of any fields

  datatype Field = Field(name: string, value: string)

  /** ASCII on one line, without space at its ends. */
  predicate Plain(s: string) {
    && IsAscii(s)
    && (forall i :: 0 <= i < |s| ==> s[i] != '\n')
    && (s != "" ==> s[0] !in SPACE && s[|s| - 1] !in SPACE)
  }

  predicate Sendable(f: Field) {
    Plain(f.name) && f.name != "" && ':' !in f.name && Plain(f.value)
  }

  /** A field as section "Header Part" has it written. */
  function Line(f: Field): string {
    f.name + ": " + f.value + "\r\n"
  }

  function Lines(fields: seq<Field>): string {
    if fields == [] then "" else Line(fields[0]) + Lines(fields[1..])
  }

  /** What the fields say together: names regardless of case, the last of equal ones counting. */
  function Collected(fields: seq<Field>, earlier: map<string, string>): map<string, string> {
    if fields == [] then earlier else Collected(fields[1..], earlier[Lower(fields[0].name) := fields[0].value])
  }

  lemma StripPlain(s: string)
    requires Plain(s)
    ensures Strip(s) == s && Strip(" " + s) == s
  {
    var spaced := " " + s;
    assert spaced[1..] == s;
    if s == "" {
      assert spaced[..0] == "";
      assert StripRight(spaced, SPACE) == StripRight(spaced[..0], SPACE) == "";
    } else {
      assert spaced[|spaced| - 1] == s[|s| - 1];
      assert StripRight(spaced, SPACE) == spaced;
      assert StripLeft(spaced, SPACE) == StripLeft(s, SPACE) == s;
    }
  }

  lemma FieldLine(f: Field)
    requires Sendable(f)
    ensures var line := Line(f);
            && line != [] && line[|line| - 1] == '\n' && IsAscii(line)
            && (forall i :: 0 <= i < |line| - 1 ==> line[i] != '\n')
            && StripRight(line, LINE_END) == f.name + ":" + (" " + f.value)
  {
    var line, bare := Line(f), f.name + ": " + f.value;
    assert line == bare + "\r\n";
    assert line[..|line| - 1] == bare + "\r";
    assert (bare + "\r")[..|bare|] == bare;
    assert bare[|bare| - 1] !in LINE_END by {
      if f.value != "" {
        assert bare[|bare| - 1] == f.value[|f.value| - 1];
      }
    }
    assert StripRight(line, LINE_END) == StripRight(bare + "\r", LINE_END) == StripRight(bare, LINE_END) == bare;
    assert bare == f.name + ":" + (" " + f.value);
  }

  lemma BlankLine(rest: string)
    ensures var data := "\r\n" + rest;
            && data != [] && LineLength(data) == 2 && data[2..] == rest
            && IsAscii(data[..2]) && StripRight(data[..2], LINE_END) == ""
  {
    var blank := "\r\n";
    LineLengthAt(blank, rest);
    assert (blank + rest)[..2] == blank;
    assert blank[..1] == "\r" && blank[..1][..0] == "";
    assert StripRight(blank, LINE_END) == StripRight(blank[..1], LINE_END) == "";
  }

  /** Any fields, in any order, are read as what they say together. */
  lemma {:induction false} ReadWrittenFields(fields: seq<Field>, earlier: map<string, string>, rest: string)
    requires forall i :: 0 <= i < |fields| ==> Sendable(fields[i])
    ensures ReadHeader(Lines(fields) + ("\r\n" + rest), earlier) == Fields(Collected(fields, earlier), rest)
    decreases |fields|
  {
    if fields == [] {
      BlankLine(rest);
      assert Lines(fields) + ("\r\n" + rest) == "\r\n" + rest;
    } else {
      var f, later := fields[0], Lines(fields[1..]) + ("\r\n" + rest);
      assert Lines(fields) + ("\r\n" + rest) == Line(f) + later;
      ReadOneField(f, earlier, later);
      ReadWrittenFields(fields[1..], earlier[Lower(f.name) := f.value], rest);
    }
  }

  lemma ReadOneField(f: Field, earlier: map<string, string>, later: string)
    requires Sendable(f)
    ensures ReadHeader(Line(f) + later, earlier) == ReadHeader(later, earlier[Lower(f.name) := f.value])
  {
    var line := Line(f);
    FieldLine(f);
    LineLengthAt(line, later);
    assert (line + later)[..|line|] == line && (line + later)[|line|..] == later;
    KeyValueAt(f.name, " " + f.value);
    StripPlain(f.name);
    StripPlain(f.value);
  }

  /** A line without a colon is a field without a value. */
  lemma ReadBareLine(name: string, earlier: map<string, string>, later: string)
    requires Plain(name) && name != "" && ':' !in name
    ensures ReadHeader(name + "\r\n" + later, earlier) == ReadHeader(later, earlier[Lower(name) := ""])
  {
    var line := name + "\r\n";
    BareLine(name);
    LineLengthAt(line, later);
    assert (line + later)[..|line|] == line && (line + later)[|line|..] == later;
    NoColon(name);
    StripPlain(name);
    assert Strip("") == "";
  }

  lemma BareLine(name: string)
    requires Plain(name) && name != ""
    ensures var line := name + "\r\n";
            && IsAscii(line) && line[|line| - 1] == '\n'
            && (forall i :: 0 <= i < |line| - 1 ==> line[i] != '\n')
            && StripRight(line, LINE_END) == name
  {
    var line := name + "\r\n";
    assert line[..|line| - 1] == name + "\r" && (name + "\r")[..|name|] == name;
    assert StripRight(line, LINE_END) == StripRight(name + "\r", LINE_END) == StripRight(name, LINE_END) == name;
  }

  lemma {:induction false} NoColon(line: string)
    requires ':' !in line
    ensures Key(line) == line && Value(line) == ""
  {
    if line != "" {
      NoColon(line[1..]);
    }
  }

  /** A line with a byte outside ASCII ends the reading, behind it. */
  lemma {:induction false} ReadNotAscii(fields: seq<Field>, earlier: map<string, string>, line: string, rest: string)
    requires forall i :: 0 <= i < |fields| ==> Sendable(fields[i])
    requires line != "" && line[|line| - 1] == '\n' && forall i :: 0 <= i < |line| - 1 ==> line[i] != '\n'
    requires exists i :: 0 <= i < |line| && line[i] as int >= 128
    ensures ReadHeader(Lines(fields) + (line + rest), earlier) == Malformed(NotAscii, rest)
    decreases |fields|
  {
    if fields == [] {
      LineLengthAt(line, rest);
      assert (line + rest)[..|line|] == line && (line + rest)[|line|..] == rest;
      assert Lines(fields) + (line + rest) == line + rest;
    } else {
      var f, later := fields[0], Lines(fields[1..]) + (line + rest);
      assert Lines(fields) + (line + rest) == Line(f) + later;
      ReadOneField(f, earlier, later);
      ReadNotAscii(fields[1..], earlier[Lower(f.name) := f.value], line, rest);
    }
  }

  /** A stream that ends among the fields. */
  lemma {:induction false} ReadClosed(fields: seq<Field>, earlier: map<string, string>)
    requires forall i :: 0 <= i < |fields| ==> Sendable(fields[i])
    ensures ReadHeader(Lines(fields), earlier) == Malformed(Closed, [])
    decreases |fields|
  {
    if fields != [] {
      ReadOneField(fields[0], earlier, Lines(fields[1..]));
      ReadClosed(fields[1..], earlier[Lower(fields[0].name) := fields[0].value]);
    }
  }

  /** Sections that say no length, or a longer one than is left to read. */
  lemma ReadNoLength(fields: seq<Field>, rest: string)
    requires forall i :: 0 <= i < |fields| ==> Sendable(fields[i])
    requires LENGTH_KEY !in Collected(fields, map[])
    ensures ReadFrame(Lines(fields) + ("\r\n" + rest)) == Failed(NoLength, rest)
  {
    ReadWrittenFields(fields, map[], rest);
  }

  lemma ReadCutShort(fields: seq<Field>, n: nat, rest: string)
    requires forall i :: 0 <= i < |fields| ==> Sendable(fields[i])
    requires LENGTH_KEY in Collected(fields, map[]) && Collected(fields, map[])[LENGTH_KEY] == Decimal(n)
    requires n > |rest|
    ensures ReadFrame(Lines(fields) + ("\r\n" + rest)) == Failed(ClosedMidMessage, [])
  {
    ReadWrittenFields(fields, map[], rest);
    ParseIntDecimal(n);
  }

  /** str.lower on ASCII: the letters of the alphabet become small, everything else stays. */
  lemma LowerLetters(s: string, i: nat)
    requires i < |s|
    ensures forall k: nat :: k < 26 && s[i] == "ABCDEFGHIJKLMNOPQRSTUVWXYZ"[k] ==>
              Lower(s)[i] == "abcdefghijklmnopqrstuvwxyz"[k]
    ensures s[i] !in "ABCDEFGHIJKLMNOPQRSTUVWXYZ" ==> Lower(s)[i] == s[i]
  {
    forall k: nat | k < 26
      ensures "ABCDEFGHIJKLMNOPQRSTUVWXYZ"[k] as int == 'A' as int + k
      ensures "abcdefghijklmnopqrstuvwxyz"[k] as int == 'a' as int + k
    {
      Capital(k);
      Small(k);
    }
    LettersLowered(s, i, "ABCDEFGHIJKLMNOPQRSTUVWXYZ", "abcdefghijklmnopqrstuvwxyz");
  }

  lemma Capital(k: nat)
    requires k < 26
    ensures "ABCDEFGHIJKLMNOPQRSTUVWXYZ"[k] as int == 'A' as int + k
  {
  }

  lemma Small(k: nat)
    requires k < 26
    ensures "abcdefghijklmnopqrstuvwxyz"[k] as int == 'a' as int + k
  {
  }

  lemma LettersLowered(s: string, i: nat, upper: string, lower: string)
    requires i < |s| && |upper| == |lower| == 26
    requires forall k: nat :: k < 26 ==> upper[k] as int == 'A' as int + k && lower[k] as int == 'a' as int + k
    ensures forall k: nat :: k < 26 && s[i] == upper[k] ==> Lower(s)[i] == lower[k]
    ensures s[i] !in upper ==> Lower(s)[i] == s[i]
  {
    var k := if 'A' <= s[i] <= 'Z' then s[i] as int - 'A' as int else 0;
    assert upper[k] as int == 'A' as int + k;
  }

  lemma LowerName()
    ensures Lower("Content-Length") == LENGTH_KEY
  {
    var s := Lower("Content-Length");
    assert s[0] == 'c' && s[8] == 'l';
  }

  lemma LengthSendable(n: nat)
    ensures Sendable(Field("Content-Length", Decimal(n)))
  {
    DecimalDigits(n);
    DigitsPlain(Decimal(n));
    NamePlain();
  }

  lemma NamePlain()
    ensures Plain("Content-Length") && ':' !in "Content-Length"
  {
    var name := "Content-Length";
    assert name[0] == 'C' && name[|name| - 1] == 'h';
  }

  lemma DigitsPlain(s: string)
    requires forall i :: 0 <= i < |s| ==> IsDigit(s[i])
    ensures Plain(s)
  {
  }

  /** The header section that was written is read as the one field it holds. */
  lemma ReadWrittenHeader(n: nat, rest: string)
    ensures ReadHeader(Head(n) + ("\r\n" + rest), map[]) == Fields(map[LENGTH_KEY := Decimal(n)], rest)
  {
    var fields := [Field("Content-Length", Decimal(n))];
    LengthSendable(n);
    ReadWrittenFields(fields, map[], rest);
    LowerName();
    assert fields[1..] == [];
    assert Lines(fields) == Line(fields[0]) + Lines([]) == Head(n);
  }

  /** A body is read whatever fields come with it, if the last one that gives a length gives the body's. */
  lemma ReadAnyFrame(fields: seq<Field>, body: string, rest: string)
    requires forall i :: 0 <= i < |fields| ==> Sendable(fields[i])
    requires LENGTH_KEY in Collected(fields, map[]) && Collected(fields, map[])[LENGTH_KEY] == Decimal(|body|)
    ensures ReadFrame(Lines(fields) + ("\r\n" + (body + rest))) == Body(body, rest)
  {
    ReadWrittenFields(fields, map[], body + rest);
    ParseIntDecimal(|body|);
    assert (body + rest)[..|body|] == body && (body + rest)[|body|..] == rest;
  }

  lemma CollectedTwo(a: Field, b: Field, key: string)
    requires Lower(a.name) == key && Lower(b.name) != key
    ensures key in Collected([a, b], map[]) && Collected([a, b], map[])[key] == a.value
    ensures key in Collected([b, a], map[]) && Collected([b, a], map[])[key] == a.value
  {
    CollectedBoth(a, b, map[]);
    CollectedBoth(b, a, map[]);
  }

  lemma CollectedBoth(a: Field, b: Field, earlier: map<string, string>)
    ensures Collected([a, b], earlier) == earlier[Lower(a.name) := a.value][Lower(b.name) := b.value]
  {
    assert [a, b][1..] == [b] && [b][1..] == [];
    var first := earlier[Lower(a.name) := a.value];
    assert Collected([b], first) == Collected([], first[Lower(b.name) := b.value]);
  }

  lemma ReadTwoFields(a: Field, b: Field, body: string, rest: string)
    requires Sendable(a) && Sendable(b)
    requires LENGTH_KEY in Collected([a, b], map[]) && Collected([a, b], map[])[LENGTH_KEY] == Decimal(|body|)
    ensures ReadFrame(Lines([a, b]) + ("\r\n" + (body + rest))) == Body(body, rest)
  {
    ReadAnyFrame([a, b], body, rest);
  }

  /** The two fields the protocol knows, in either order. */
  lemma ReadTypedFrame(kind: string, body: string, rest: string)
    requires Plain(kind)
    ensures var sized, typed := Field("Content-Length", Decimal(|body|)), Field("Content-Type", kind);
            && ReadFrame(Lines([sized, typed]) + ("\r\n" + (body + rest))) == Body(body, rest)
            && ReadFrame(Lines([typed, sized]) + ("\r\n" + (body + rest))) == Body(body, rest)
  {
    LengthSendable(|body|);
    LowerName();
    TypeSendable(kind);
    var sized, typed := Field("Content-Length", Decimal(|body|)), Field("Content-Type", kind);
    CollectedTwo(sized, typed, LENGTH_KEY);
    ReadTwoFields(sized, typed, body, rest);
    ReadTwoFields(typed, sized, body, rest);
  }

  lemma TypeSendable(kind: string)
    requires Plain(kind)
    ensures Sendable(Field("Content-Type", kind)) && Lower("Content-Type") != LENGTH_KEY
  {
    var name := "Content-Type";
    assert name[0] == 'C' && name[|name| - 1] == 'e';
    assert |Lower(name)| == 12;
  }

  /** Reading a written frame gives its body back and leaves what follows it, whatever the body
      holds: line ends, header-like text, anything. */
  lemma ReadWrittenFrame(body: string, rest: string)
    ensures ReadFrame(WriteFrame(body) + rest) == Body(body, rest)
  {
    assert WriteFrame(body) + rest == Head(|body|) + ("\r\n" + (body + rest));
    ReadWrittenHeader(|body|, body + rest);
    ParseIntDecimal(|body|);
    assert (body + rest)[..|body|] == body && (body + rest)[|body|..] == rest;
  }

  lemma {:induction false} ReadWrittenFrames(bodies: seq<string>)
    ensures ReadFrames(WriteFrames(bodies)) == Some(bodies)
  {
    if bodies != [] {
      ReadWrittenFrame(bodies[0], WriteFrames(bodies[1..]));
      ReadWrittenFrames(bodies[1..]);
      assert [bodies[0]] + bodies[1..] == bodies;
    }
  }
}
