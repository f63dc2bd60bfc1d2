/**
 Replies on BIRD's control socket: lines that start with a four-digit code open a record, lines that start
 with a space continue it. Lines are UTF-8 octets, and cutting a line inside a character panics.
 */
module BirdReply {
  import opened Bytes

  type Line = seq<Byte>

  const LF: Byte := 10
  const CR: Byte := 13
  const SPACE: Byte := 32
  const PLUS: Byte := 43

  datatype Reply = Records(lines: seq<Line>) | Error(message: Line) | Panicked

  datatype State = State(lines: seq<Line>, current: Line, append: bool)

  datatype Effect = Go(state: State) | Stop | Fail(message: Line) | Crash

  // ---- One line

  /** Without the line ends at its end. */
  function Trim(line: Line): (t: Line)
    ensures t <= line && (|t| == |line| <==> t == line)
  {
    if line != [] && (line[|line| - 1] == LF || line[|line| - 1] == CR) then Trim(line[..|line| - 1]) else line
  }

  predicate IsDigit(b: Byte) { 48 <= b <= 57 }

  /** A place where the text may be cut: its end, or the first octet of a character. */
  predicate Boundary(line: Line, i: nat) { i == |line| || (i < |line| && !(0x80 <= line[i] < 0xc0)) }

  predicate HasCode(line: Line) { |line| >= 4 && forall i :: 0 <= i < 4 ==> IsDigit(line[i]) }

  function Flush(s: State): seq<Line> { if s.current == [] then s.lines else s.lines + [s.current] }

  /** A coded line: its first digit decides. */
  function Coded(s: State, line: Line): Effect
    requires HasCode(line)
  {
    var kind: int := line[0] - 48;
    if kind == 1 || kind == 2 then
      if |line| <= 5 then Go(State(Flush(s), [], false))
      else if !Boundary(line, 5) then Crash
      else Go(State(Flush(s), line[5..], false))
    else if kind == 8 || kind == 9 then
      if !Boundary(line, 5) then Crash else Fail(if |line| >= 5 then line[5..] else [])
    else Stop
  }

  /** Any other line. */
  function Uncoded(s: State, line: Line): State {
    if line == [] then State(Flush(s), [], s.append)
    else if line[0] == SPACE then
      s.(current := if s.append then s.current + line[1..] else s.current + [LF] + line[1..])
    else if line[0] == PLUS then s.(current := s.current + line[1..], append := true)
    else s.(current := s.current + [LF] + line)
  }

  function Feed(s: State, raw: Line): Effect {
    var line := Trim(raw);
    if |line| >= 4 && !Boundary(line, 4) then Crash
    else if HasCode(line) then Coded(s, line)
    else Go(Uncoded(s, line))
  }

  // ---- A whole reply

  /** The lines of a text, each with its line end; the last one may lack it. */
  function RawLines(text: seq<Byte>): seq<Line> {
    if text == [] then [] else
      var n := LineLength(text);
      [text[..n]] + RawLines(text[n..])
  }

  function LineLength(text: seq<Byte>): (n: nat)
    requires text != []
    ensures 1 <= n <= |text|
  {
    if text[0] == LF || |text| == 1 then 1 else 1 + LineLength(text[1..])
  }

  function Read(s: State, raws: seq<Line>): Reply
    decreases |raws|
  {
    if raws == [] then Records(Flush(s))
    else match Feed(s, raws[0])
      case Go(next) => Read(next, raws[1..])
      case Stop => Records(Flush(s))
      case Fail(message) => Error(message)
      case Crash => Panicked
  }

  const START := State([], [], false)

  method ReadResponse(text: seq<Byte>) returns (r: Reply)
    ensures r == Read(START, RawLines(text))
  {
    hide Read, RawLines, LineLength, Trim;
    var lines: seq<Line> := [];
    var currentLine: Line := [];
    var appendMode := false;
    var pos := 0;
    assert text[pos..] == text;
    while pos < |text|
      invariant 0 <= pos <= |text|
      invariant Read(State(lines, currentLine, appendMode), RawLines(text[pos..])) == Read(START, RawLines(text))
    {
      var n := LineLength(text[pos..]);
      var line := Trim(text[pos..pos + n]);
      ReadLine(State(lines, currentLine, appendMode), text, pos, n);
      pos := pos + n;
      if |line| >= 4 && !Boundary(line, 4) {
        return Panicked;
      }
      if HasCode(line) {
        var kind: int := line[0] - 48;
        if kind == 1 || kind == 2 {
          if currentLine != [] {
            lines := lines + [currentLine];
          }
          if |line| > 5 && !Boundary(line, 5) {
            return Panicked;
          }
          currentLine := if |line| > 5 then line[5..] else [];
          appendMode := false;
        } else if kind == 8 || kind == 9 {
          if !Boundary(line, 5) {
            return Panicked;
          }
          return Error(line[5..]);
        } else {
          break;
        }
      } else if line != [] && line[0] == SPACE {
        if appendMode {
          currentLine := currentLine + line[1..];
        } else {
          currentLine := currentLine + [LF] + line[1..];
        }
      } else if line != [] && line[0] == PLUS {
        currentLine := currentLine + line[1..];
        appendMode := true;
      } else if line == [] {
        if currentLine != [] {
          lines := lines + [currentLine];
          currentLine := [];
        }
      } else {
        currentLine := currentLine + [LF] + line;
      }
    }
    assert pos == |text| ==> text[pos..] == [];
    ReadNothing(State(lines, currentLine, appendMode));
    if currentLine != [] {
      lines := lines + [currentLine];
    }
    r := Records(lines);
  }

  lemma ReadNothing(s: State)
    ensures Read(s, RawLines([])) == Records(Flush(s))
  {
  }

  lemma ReadLine(s: State, text: seq<Byte>, pos: nat, n: nat)
    requires pos < |text| && n == LineLength(text[pos..])
    ensures Read(s, RawLines(text[pos..]))
         == match Feed(s, text[pos..pos + n])
            case Go(next) => Read(next, RawLines(text[pos + n..]))
            case Stop => Records(Flush(s))
            case Fail(message) => Error(message)
            case Crash => Panicked
  {
    var rest := text[pos..];
    assert rest[..n] == text[pos..pos + n] && rest[n..] == text[pos + n..];
    assert RawLines(rest) == [rest[..n]] + RawLines(rest[n..]);
  }

  // ---- Printing

  /** A continuation: a new line of the record, or, with a plus sign, more of the line before. */
  datatype Piece = Piece(plus: bool, text: Line)

  /** A record: the code and separator of its first line, the text after them, and the continuations. */
  datatype Record = Record(code: Line, separator: Byte, first: Line, more: seq<Piece>)

  predicate OneLine(p: Line) { LF !in p }

  /** A table code (1xxx or 2xxx), a plain separator, and texts without line ends. */
  predicate Printable(r: Record) {
    && |r.code| == 4 && (forall i :: 0 <= i < 4 ==> IsDigit(r.code[i])) && 49 <= r.code[0] <= 50
    && 32 <= r.separator < 0x80
    && OneLine(r.first) && forall i :: 0 <= i < |r.more| ==> OneLine(r.more[i].text)
  }

  predicate AllPrintable(rs: seq<Record>) { forall i :: 0 <= i < |rs| ==> Printable(rs[i]) }

  function Lead(p: Piece): Line { if p.plus then [PLUS] else [SPACE] }

  function Continued(more: seq<Piece>): seq<Line> {
    if more == [] then [] else [Lead(more[0]) + more[0].text + [LF]] + Continued(more[1..])
  }

  function PrintedLines(r: Record): seq<Line> { [r.code + [r.separator] + r.first + [LF]] + Continued(r.more) }

  /** The terminator, code 0000. */
  const END: seq<Line> := [[48, 48, 48, 48, SPACE, LF]]

  function AllPrintedLines(rs: seq<Record>): seq<Line> {
    if rs == [] then END else PrintedLines(rs[0]) + AllPrintedLines(rs[1..])
  }

  function Joined(lines: seq<Line>): seq<Byte> { if lines == [] then [] else lines[0] + Joined(lines[1..]) }

  function Print(rs: seq<Record>): seq<Byte> { Joined(AllPrintedLines(rs)) }

  // ---- Lines of a printed text

  predicate WholeLine(l: Line) { l != [] && l[|l| - 1] == LF && LF !in l[..|l| - 1] }

  lemma {:induction false} FirstLine(l: Line, rest: seq<Byte>)
    requires WholeLine(l)
    ensures LineLength(l + rest) == |l|
  {
    var text := l + rest;
    if |l| == 1 {
      assert text[0] == LF;
    } else {
      assert l[..|l| - 1][0] == text[0] && text[0] != LF;
      assert l[1..][..|l| - 2] == l[..|l| - 1][1..];
      FirstLine(l[1..], rest);
      assert text[1..] == l[1..] + rest;
    }
  }

  lemma {:induction false} LinesOfJoined(lines: seq<Line>)
    requires forall i :: 0 <= i < |lines| ==> WholeLine(lines[i])
    ensures RawLines(Joined(lines)) == lines
  {
    if lines != [] {
      FirstLine(lines[0], Joined(lines[1..]));
      LinesOfJoined(lines[1..]);
      var text := Joined(lines);
      assert text[..|lines[0]|] == lines[0] && text[|lines[0]|..] == Joined(lines[1..]);
    }
  }

  lemma {:induction false} ContinuedWhole(more: seq<Piece>)
    requires forall i :: 0 <= i < |more| ==> OneLine(more[i].text)
    ensures forall i :: 0 <= i < |Continued(more)| ==> WholeLine(Continued(more)[i])
  {
    if more != [] {
      ContinuedWhole(more[1..]);
      var l := Lead(more[0]) + more[0].text + [LF];
      assert l[..|l| - 1] == Lead(more[0]) + more[0].text;
    }
  }

  lemma {:induction false} PrintedWhole(rs: seq<Record>)
    requires AllPrintable(rs)
    ensures forall i :: 0 <= i < |AllPrintedLines(rs)| ==> WholeLine(AllPrintedLines(rs)[i])
  {
    if rs == [] {
      assert END[0][..5] == [48, 48, 48, 48, SPACE];
    } else {
      PrintedWhole(rs[1..]);
      ContinuedWhole(rs[0].more);
      var l := rs[0].code + [rs[0].separator] + rs[0].first + [LF];
      assert l[..|l| - 1] == rs[0].code + [rs[0].separator] + rs[0].first;
    }
  }

  // ---- What reading a printed text gives

  /** The text of a record: a line feed before each new line of it. */
  function TextOf(start: Line, more: seq<Piece>): Line
    decreases |more|
  {
    if more == [] then start
    else TextOf(start + (if more[0].plus then [] else [LF]) + more[0].text, more[1..])
  }

  /**
   The text the reader sees: carriage returns at line ends are gone, and behind a plus sign no continuation
   starts a new line any more.
   */
  function ReadText(start: Line, append: bool, more: seq<Piece>): Line
    decreases |more|
  {
    if more == [] then start
    else
      var now := append || more[0].plus;
      ReadText(start + (if now then [] else [LF]) + Trim(more[0].text), now, more[1..])
  }

  function SeenText(r: Record): Line { ReadText(Trim(r.first), false, r.more) }

  /** A continuation line of which the code check would cut a character. */
  predicate CutsMore(p: Piece) { |Trim(p.text)| >= 3 && !Boundary(Lead(p) + Trim(p.text), 4) }

  predicate Cuts(r: Record) {
    !Boundary(Trim(r.first), 0) || AnyCutsMore(r.more)
  }

  lemma TrimPrinted(p: Line, head: Line)
    requires OneLine(p) && head != [] && head[|head| - 1] != CR && head[|head| - 1] != LF
    ensures Trim(head + p + [LF]) == head + Trim(p)
  {
    var l := head + p + [LF];
    assert l[..|l| - 1] == head + p;
    TrimAfter(head, p);
  }

  lemma {:induction false} TrimAfter(head: Line, p: Line)
    requires head != [] && head[|head| - 1] != CR && head[|head| - 1] != LF
    ensures Trim(head + p) == head + Trim(p)
  {
    var l := head + p;
    if p == [] {
      assert l == head;
    } else {
      assert l[|l| - 1] == p[|p| - 1] && l[..|l| - 1] == head + p[..|p| - 1];
      TrimAfter(head, p[..|p| - 1]);
    }
  }

  lemma FeedsMore(s: State, p: Piece)
    requires OneLine(p.text)
    ensures var now := s.append || p.plus;
            Feed(s, Lead(p) + p.text + [LF])
            == if CutsMore(p) then Crash
               else Go(State(s.lines, s.current + (if now then [] else [LF]) + Trim(p.text), now))
  {
    TrimPrinted(p.text, Lead(p));
    var line := Lead(p) + Trim(p.text);
    assert Trim(Lead(p) + p.text + [LF]) == line && [line[0]] == Lead(p) && line[1..] == Trim(p.text);
    assert !HasCode(line);
    assert s.current + [] + Trim(p.text) == s.current + Trim(p.text);
  }

  predicate AnyCutsMore(more: seq<Piece>) { exists i :: 0 <= i < |more| && CutsMore(more[i]) }

  lemma CutsFirstPieceOrLater(more: seq<Piece>)
    requires more != []
    ensures AnyCutsMore(more) <==> CutsMore(more[0]) || AnyCutsMore(more[1..])
  {
    if i :| 0 <= i < |more| && CutsMore(more[i]) {
      assert i > 0 ==> CutsMore(more[1..][i - 1]);
    }
    if i :| 0 <= i < |more[1..]| && CutsMore(more[1..][i]) {
      assert CutsMore(more[i + 1]);
    }
  }

  predicate AnyPlus(more: seq<Piece>) { more != [] && (more[0].plus || AnyPlus(more[1..])) }

  lemma {:induction false} ReadsContinued(s: State, more: seq<Piece>, rest: seq<Line>)
    requires forall i :: 0 <= i < |more| ==> OneLine(more[i].text)
    ensures Read(s, Continued(more) + rest)
         == if AnyCutsMore(more) then Panicked
            else Read(State(s.lines, ReadText(s.current, s.append, more), s.append || AnyPlus(more)), rest)
    decreases |more|
  {
    hide Feed, AnyCutsMore, CutsMore;
    if more == [] {
      assert Continued(more) + rest == rest;
      NoPieces();
    } else {
      var p := more[0];
      FeedsMore(s, p);
      CutsFirstPieceOrLater(more);
      var lines := Continued(more) + rest;
      assert lines[0] == Lead(p) + p.text + [LF] && lines[1..] == Continued(more[1..]) + rest;
      if !CutsMore(p) {
        var now := s.append || p.plus;
        ReadsContinued(State(s.lines, s.current + (if now then [] else [LF]) + Trim(p.text), now), more[1..], rest);
      }
    }
  }

  lemma NoPieces()
    ensures !AnyCutsMore([])
  {
  }

  lemma FeedsFirst(s: State, r: Record)
    requires Printable(r)
    ensures Feed(s, r.code + [r.separator] + r.first + [LF])
         == if Boundary(Trim(r.first), 0) then Go(State(Flush(s), Trim(r.first), false)) else Crash
  {
    var head, t := r.code + [r.separator], Trim(r.first);
    TrimPrinted(r.first, head);
    var line := head + t;
    assert forall i :: 0 <= i < 4 ==> line[i] == r.code[i];
    assert line[4] == r.separator && line[5..] == t;
    assert t != [] ==> line[5] == t[0];
  }

  /** The non-empty texts, as the reader sees them. */
  function Kept(rs: seq<Record>): seq<Line> {
    if rs == [] then []
    else (if SeenText(rs[0]) == [] then [] else [SeenText(rs[0])]) + Kept(rs[1..])
  }

  predicate AnyCuts(rs: seq<Record>) { exists i :: 0 <= i < |rs| && Cuts(rs[i]) }

  lemma CutsFirstOrLater(rs: seq<Record>)
    requires rs != []
    ensures AnyCuts(rs) <==> Cuts(rs[0]) || AnyCuts(rs[1..])
  {
  }

  lemma ReadsRecord(s: State, r: Record, rest: seq<Line>)
    requires Printable(r)
    ensures Read(s, PrintedLines(r) + rest)
         == if Cuts(r) then Panicked else Read(State(Flush(s), SeenText(r), AnyPlus(r.more)), rest)
  {
    hide Feed;
    var lines := PrintedLines(r) + rest;
    FeedsFirst(s, r);
    assert lines[0] == r.code + [r.separator] + r.first + [LF] && lines[1..] == Continued(r.more) + rest;
    ReadsContinued(State(Flush(s), Trim(r.first), false), r.more, rest);
  }

  lemma EndStops(s: State)
    ensures Read(s, END) == Records(Flush(s))
  {
    var line: Line := [48, 48, 48, 48, SPACE];
    assert END[0] == line + [LF] && END[0][..5] == line;
    assert Trim(line) == line && Trim(END[0]) == line;
  }

  lemma {:induction false} ReadsPrinted(s: State, rs: seq<Record>)
    requires AllPrintable(rs)
    ensures Read(s, AllPrintedLines(rs)) == if AnyCuts(rs) then Panicked else Records(Flush(s) + Kept(rs))
    decreases |rs|
  {
    hide Read, Flush, Kept, Printable, AnyCuts, Cuts, PrintedLines;
    if rs == [] {
      EndStops(s);
      KeptNone(s);
    } else {
      CutsFirstOrLater(rs);
      ReadsRecord(s, rs[0], AllPrintedLines(rs[1..]));
      ReadsPrinted(State(Flush(s), SeenText(rs[0]), AnyPlus(rs[0].more)), rs[1..]);
      KeptNext(s, rs);
    }
  }

  lemma KeptNone(s: State)
    ensures Flush(s) + Kept([]) == Flush(s) && !AnyCuts([])
  {
  }

  lemma KeptNext(s: State, rs: seq<Record>)
    requires rs != []
    ensures forall append :: Flush(State(Flush(s), SeenText(rs[0]), append)) + Kept(rs[1..]) == Flush(s) + Kept(rs)
  {
  }

  // ---- When the round trip holds

  function Texts(rs: seq<Record>): seq<Line> {
    if rs == [] then [] else [TextOf(rs[0].first, rs[0].more)] + Texts(rs[1..])
  }

  /** No carriage return at a line's end, and no new line after a line that was continued with a plus sign. */
  predicate Clean(append: bool, more: seq<Piece>)
    decreases |more|
  {
    more == [] ||
    (Trim(more[0].text) == more[0].text && (append ==> more[0].plus) && Clean(append || more[0].plus, more[1..]))
  }

  /** Not empty, read as it was printed, and no character cut by the code check. */
  predicate Faithful(r: Record) {
    !Cuts(r) && TextOf(r.first, r.more) != [] && Trim(r.first) == r.first && Clean(false, r.more)
  }

  function Length(more: seq<Piece>): nat {
    if more == [] then 0 else (if more[0].plus then 0 else 1) + |more[0].text| + Length(more[1..])
  }

  function ReadLength(append: bool, more: seq<Piece>): nat
    decreases |more|
  {
    if more == [] then 0
    else
      var now := append || more[0].plus;
      (if now then 0 else 1) + |Trim(more[0].text)| + ReadLength(now, more[1..])
  }

  lemma {:induction false} TextLengths(start: Line, append: bool, more: seq<Piece>)
    ensures |TextOf(start, more)| == |start| + Length(more)
    ensures |ReadText(start, append, more)| == |start| + ReadLength(append, more)
    decreases |more|
  {
    if more != [] {
      var now := append || more[0].plus;
      TextLengths(start + (if more[0].plus then [] else [LF]) + more[0].text, now, more[1..]);
      TextLengths(start + (if now then [] else [LF]) + Trim(more[0].text), now, more[1..]);
    }
  }

  /** Reading never adds anything, and what is read is as long only if it is the same. */
  lemma {:induction false} ReadIsShorter(append: bool, more: seq<Piece>)
    ensures ReadLength(append, more) <= Length(more)
    ensures ReadLength(append, more) == Length(more) <==> Clean(append, more)
    decreases |more|
  {
    if more != [] {
      ReadIsShorter(append || more[0].plus, more[1..]);
    }
  }

  lemma {:induction false} CleanIsReadAsIs(start: Line, append: bool, more: seq<Piece>)
    requires Clean(append, more)
    ensures ReadText(start, append, more) == TextOf(start, more)
    decreases |more|
  {
    if more != [] {
      CleanIsReadAsIs(start + (if more[0].plus then [] else [LF]) + more[0].text, append || more[0].plus, more[1..]);
    }
  }

  lemma SeenTextExactly(r: Record)
    ensures SeenText(r) == TextOf(r.first, r.more) <==> Trim(r.first) == r.first && Clean(false, r.more)
  {
    TextLengths(Trim(r.first), false, r.more);
    TextLengths(r.first, false, r.more);
    ReadIsShorter(false, r.more);
    if Trim(r.first) == r.first && Clean(false, r.more) {
      CleanIsReadAsIs(r.first, false, r.more);
    }
  }

  lemma {:induction false} KeptExactly(rs: seq<Record>)
    ensures |Kept(rs)| <= |rs| && |Texts(rs)| == |rs|
    ensures Kept(rs) == Texts(rs)
            <==> forall i :: 0 <= i < |rs| ==> SeenText(rs[i]) == TextOf(rs[i].first, rs[i].more) != []
  {
    hide SeenText, TextOf;
    if rs != [] {
      var rest := rs[1..];
      KeptExactly(rest);
      assert forall i :: 0 <= i < |rest| ==> rest[i] == rs[i + 1];
      assert forall i :: 1 <= i < |rs| ==> rs[i] == rest[i - 1];
      if SeenText(rs[0]) != [] {
        assert Kept(rs)[0] == SeenText(rs[0]) && Kept(rs)[1..] == Kept(rest);
        assert Texts(rs)[0] == TextOf(rs[0].first, rs[0].more) && Texts(rs)[1..] == Texts(rest);
      }
    }
  }

  /** Printing records and reading them back returns the same texts if and only if every record is faithful. */
  lemma RoundTripExactly(rs: seq<Record>)
    requires AllPrintable(rs)
    ensures Read(START, RawLines(Print(rs))) == Records(Texts(rs))
            <==> forall i :: 0 <= i < |rs| ==> Faithful(rs[i])
  {
    hide SeenText, TextOf, Cuts, Trim, Read, RawLines;
    PrintedWhole(rs);
    LinesOfJoined(AllPrintedLines(rs));
    ReadsPrinted(START, rs);
    assert Flush(START) + Kept(rs) == Kept(rs);
    KeptExactly(rs);
    forall i | 0 <= i < |rs|
      ensures Faithful(rs[i]) <==> !Cuts(rs[i]) && SeenText(rs[i]) == TextOf(rs[i].first, rs[i].more) != []
    {
      SeenTextExactly(rs[i]);
    }
  }

  /** A record whose continuation line is "ab" and the euro sign, three octets of UTF-8. */
  const EURO := Record([49, 48, 48, 48], SPACE, [97], [Piece(false, [97, 98, 0xe2, 0x82, 0xac])])

  /** Behind the space of a continuation line, the fourth octet is in the middle of that sign. */
  lemma EuroSignPanics()
    ensures AllPrintable([EURO]) && Read(START, RawLines(Print([EURO]))) == Panicked
  {
    var p: Line := [97, 98, 0xe2, 0x82, 0xac];
    assert Trim(p) == p && CutsMore(EURO.more[0]);
    assert AnyCutsMore(EURO.more) && Cuts([EURO][0]);
    hide Read, RawLines;
    PrintedWhole([EURO]);
    LinesOfJoined(AllPrintedLines([EURO]));
    ReadsPrinted(START, [EURO]);
  }

  /** "a", continued by "b", and a new line "c": the reader joins all three. */
  lemma PlusSwallowsLineFeed()
    ensures var r := Record([49, 48, 48, 48], SPACE, [97], [Piece(true, [98]), Piece(false, [99])]);
            Printable(r) && TextOf(r.first, r.more) == [97, 98, LF, 99] && SeenText(r) == [97, 98, 99]
  {
    var more := [Piece(true, [98]), Piece(false, [99])];
    assert more[1..] == [Piece(false, [99])] && more[1..][1..] == [];
    assert Trim([97]) == [97] && Trim([98]) == [98] && Trim([99]) == [99];
  }

  // ---- Reading plain octets, line by line

  /** Lines end at octet 10; the last one may lack it. */
  lemma SplitsAtLineFeed(l: seq<Byte>, rest: seq<Byte>)
    requires 10 !in l
    ensures RawLines(l + [10] + rest) == [l + [10]] + RawLines(rest)
    ensures l != [] ==> RawLines(l) == [l]
    ensures RawLines([]) == []
  {
    var line := l + [10];
    assert line[..|l|] == l;
    FirstLine(line, rest);
    assert (line + rest)[..|line|] == line && (line + rest)[|line|..] == rest;
    if l != [] {
      NoLineFeed(l);
      assert l[..|l|] == l && l[|l|..] == [];
    }
  }

  lemma {:induction false} NoLineFeed(l: seq<Byte>)
    requires 10 !in l && l != []
    ensures LineLength(l) == |l|
  {
    if |l| > 1 {
      NoLineFeed(l[1..]);
    }
  }

  /** Of a line only octets 10 and 13 at its end are dropped, and all of them. */
  lemma {:induction false} TrimExactly(line: Line)
    ensures var t := Trim(line);
            && t <= line && (forall i :: |t| <= i < |line| ==> line[i] == 10 || line[i] == 13)
            && (t != [] ==> t[|t| - 1] != 10 && t[|t| - 1] != 13)
  {
    if line != [] && (line[|line| - 1] == LF || line[|line| - 1] == CR) {
      TrimExactly(line[..|line| - 1]);
    }
  }

  lemma TrimIs(t: Line, line: Line)
    requires line == t + [10] && (t == [] || (t[|t| - 1] != 10 && t[|t| - 1] != 13))
    ensures Trim(line) == t
  {
    assert line[..|t|] == t;
  }

  predicate Code(code: Line) { |code| == 4 && forall i :: 0 <= i < 4 ==> 48 <= code[i] <= 57 }

  lemma CodeIsFirstFour(line: Line)
    requires |line| >= 4
    ensures HasCode(line) <==> Code(line[..4])
  {
    assert forall i :: 0 <= i < 4 ==> line[..4][i] == line[i];
  }

  /** A coded line that is not cut: 1xxx and 2xxx open a record, 8xxx and 9xxx are errors, all others end the reply. */
  lemma ReadsCoded(s: State, code: Line, separator: Byte, text: Line, rest: seq<Line>)
    requires Code(code) && 32 <= separator < 128
    requires text == [] || (text[|text| - 1] != 10 && text[|text| - 1] != 13 && (text[0] < 128 || text[0] >= 192))
    ensures var flushed := if s.current == [] then s.lines else s.lines + [s.current];
            Read(s, [code + [separator] + text + [10]] + rest)
            == if code[0] == 49 || code[0] == 50 then Read(State(flushed, text, false), rest)
               else if code[0] == 56 || code[0] == 57 then Error(text)
               else Records(flushed)
  {
    var line := code + [separator] + text;
    assert code + [separator] + text + [10] == line + [10];
    TrimIs(line, line + [10]);
    assert forall i :: 0 <= i < 4 ==> line[i] == code[i];
    assert line[5..] == text && (text != [] ==> line[5] == text[0]);
    hide Trim;
    assert ([line + [10]] + rest)[1..] == rest;
  }

  /** A bare code opens an empty record, ends the reply, or, for an error, panics. */
  lemma ReadsBareCode(s: State, code: Line, rest: seq<Line>)
    requires Code(code)
    ensures var flushed := if s.current == [] then s.lines else s.lines + [s.current];
            Read(s, [code + [10]] + rest)
            == if code[0] == 49 || code[0] == 50 then Read(State(flushed, [], false), rest)
               else if code[0] == 56 || code[0] == 57 then Panicked
               else Records(flushed)
  {
    TrimIs(code, code + [10]);
    hide Trim;
    assert ([code + [10]] + rest)[1..] == rest;
  }

  /** Any other line: an empty one closes the record, a space or plus sign continues it, others are a new line of it. */
  lemma ReadsUncoded(s: State, line: Line, rest: seq<Line>)
    requires line == [] || (line[|line| - 1] != 10 && line[|line| - 1] != 13)
    requires |line| >= 4 ==> !Code(line[..4]) && (|line| > 4 ==> line[4] < 128 || line[4] >= 192)
    ensures Read(s, [line + [10]] + rest)
         == Read(if line == [] then State(if s.current == [] then s.lines else s.lines + [s.current], [], s.append)
                 else if line[0] == 32 && !s.append then State(s.lines, s.current + [10] + line[1..], false)
                 else if line[0] == 32 || line[0] == 43 then State(s.lines, s.current + line[1..], true)
                 else State(s.lines, s.current + [10] + line, s.append), rest)
  {
    TrimIs(line, line + [10]);
    hide Trim;
    assert ([line + [10]] + rest)[1..] == rest;
    if |line| >= 4 {
      CodeIsFirstFour(line);
    }
  }

  /** A character that lies across the fourth octet, or across the fifth behind a code, panics. */
  lemma ReadsCutCharacter(s: State, line: Line, rest: seq<Line>)
    requires |line| > 4 && line[|line| - 1] != 10 && line[|line| - 1] != 13
    requires 128 <= line[4] < 192
             || (Code(line[..4]) && line[0] in {49, 50, 56, 57} && |line| > 5 && 128 <= line[5] < 192)
    ensures Read(s, [line + [10]] + rest) == Panicked
  {
    TrimIs(line, line + [10]);
    hide Trim;
    if !(128 <= line[4] < 192) {
      assert forall i :: 0 <= i < 4 ==> line[..4][i] == line[i];
    }
  }

  /** When the stream ends, the open record counts. */
  lemma ReadsEnd(s: State)
    ensures Read(s, []) == Records(if s.current == [] then s.lines else s.lines + [s.current])
  {
  }

  lemma OneWholeLine(line: Line)
    requires 10 !in line
    ensures RawLines(line + [10]) == [line + [10]]
  {
    SplitsAtLineFeed(line, []);
    hide RawLines;
    assert line + [10] + [] == line + [10] && [line + [10]] + [] == [line + [10]];
  }

  /** A reply that begins with a continuation has a record that begins with a line feed. */
  lemma ReadsContinuationFirst(line: Line)
    requires 10 !in line && line != [] && line[0] == 32 && line[|line| - 1] != 13
    requires |line| > 4 ==> line[4] < 128 || line[4] >= 192
    ensures Read(START, RawLines(line + [10])) == Records([[10] + line[1..]])
  {
    hide Read, RawLines, Trim;
    OneWholeLine(line);
    assert |line| >= 4 ==> line[..4][0] == 32;
    ReadsUncoded(START, line, []);
    assert [line + [10]] + [] == [line + [10]] && [] + [10] + line[1..] == [10] + line[1..];
    ReadsEnd(State([], [10] + line[1..], false));
  }
}
