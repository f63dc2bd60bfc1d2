/**
 Re-framing of a gRPC response for a browser: the body becomes one data frame and the status headers one
 trailer frame. A frame is a flag octet, a 32-bit length and a payload.
 */
module GrpcWebFrame {
  import opened Basics
  import opened Bytes

  const DATA: Byte := 0
  const COMPRESSED: Byte := 1
  const TRAILERS: Byte := 0x80
  const CR: Byte := 13
  const LF: Byte := 10

  datatype Part = Part(flag: Byte, payload: seq<Byte>)

  /** The length field keeps 32 bits of the payload's length. */
  function Frame(p: Part): (f: seq<Byte>)
    ensures |f| == 5 + |p.payload|
  {
    [p.flag] + Be32(|p.payload|) + p.payload
  }

  function Ascii(s: string): (b: seq<Byte>)
    requires forall i :: 0 <= i < |s| ==> s[i] < 128 as char
    ensures |b| == |s| && forall i :: 0 <= i < |s| ==> b[i] == s[i] as int
  {
    seq(|s|, i requires 0 <= i < |s| => s[i] as int)
  }

  const STATUS := Ascii("grpc-status:")
  const MESSAGE := Ascii("grpc-message:")
  const ZERO := Ascii("0")

  /** Header values that can be read as text: visible ASCII and tabs. */
  predicate Readable(v: seq<Byte>) { forall i :: 0 <= i < |v| ==> 32 <= v[i] < 127 || v[i] == 9 }

  function HeaderText(h: Option<seq<Byte>>, default: seq<Byte>): (t: seq<Byte>)
    requires Readable(default)
    ensures Readable(t)
  {
    if h.Some? && Readable(h.value) then h.value else default
  }

  function TrailerText(status: seq<Byte>, message: seq<Byte>): seq<Byte> {
    STATUS + status + [CR, LF] + MESSAGE + message + [CR, LF]
  }

  /** The body is one frame already, compressed or not. */
  predicate SingleFrame(body: seq<Byte>) {
    |body| >= 5 && (body[0] == DATA || body[0] == COMPRESSED) && 5 + FromBe32(body[1..5]) == |body|
  }

  function Inner(body: seq<Byte>): seq<Byte> { if SingleFrame(body) then body[5..] else body }

  function DataParts(body: seq<Byte>): seq<Part> { if body == [] then [] else [Part(DATA, Inner(body))] }

  function Parts(body: seq<Byte>, status: seq<Byte>, message: seq<Byte>): seq<Part> {
    DataParts(body) + [Part(TRAILERS, TrailerText(status, message))]
  }

  function FrameAll(ps: seq<Part>): seq<Byte> { if ps == [] then [] else Frame(ps[0]) + FrameAll(ps[1..]) }

  method Call(body: seq<Byte>, statusHeader: Option<seq<Byte>>,
        messageHeader: Option<seq<Byte>>) returns (out: seq<Byte>)
    ensures out == FrameAll(Parts(body, HeaderText(statusHeader, ZERO), HeaderText(messageHeader, [])))
  {
    hide Frame, FrameAll, Be32, FromBe32, TrailerText, HeaderText;
    out := [];
    NoFrames();
    if body != [] {
      var messageData;
      if |body| >= 5 && (body[0] == DATA || body[0] == COMPRESSED) {
        var length := FromBe32(body[1..5]);
        if 5 + length == |body| {
          messageData := body[5..];
        } else {
          messageData := body;
        }
      } else {
        messageData := body;
      }
      out := out + [DATA];
      out := out + Be32(|messageData|);
      out := out + messageData;
      FrameIs(Part(DATA, messageData));
      assert messageData == Inner(body);
    }
    assert out == FrameAll(DataParts(body));

    var trailer: seq<Byte> := [];
    var status := HeaderText(statusHeader, ZERO);
    var message := HeaderText(messageHeader, []);
    trailer := trailer + STATUS;
    trailer := trailer + status;
    trailer := trailer + [CR, LF];
    trailer := trailer + MESSAGE;
    trailer := trailer + message;
    trailer := trailer + [CR, LF];
    TrailerIs(status, message, trailer);

    out := out + [TRAILERS];
    out := out + Be32(|trailer|);
    out := out + trailer;
    FrameIs(Part(TRAILERS, trailer));
    FrameAllAppend(DataParts(body), Part(TRAILERS, trailer));
  }

  lemma FrameIs(p: Part)
    ensures Frame(p) == FrameAll([p]) == [] + [p.flag] + Be32(|p.payload|) + p.payload
    ensures forall out: seq<Byte> :: out + [p.flag] + Be32(|p.payload|) + p.payload == out + Frame(p)
  {
  }

  lemma NoFrames()
    ensures FrameAll([]) == []
  {
  }

  lemma TrailerIs(status: seq<Byte>, message: seq<Byte>, trailer: seq<Byte>)
    requires trailer == STATUS + status + [CR, LF] + MESSAGE + message + [CR, LF]
    ensures trailer == TrailerText(status, message)
  {
  }

  lemma {:induction false} FrameAllAppend(ps: seq<Part>, p: Part)
    ensures FrameAll(ps + [p]) == FrameAll(ps) + Frame(p)
  {
    hide Frame;
    if ps == [] {
      assert ps + [p] == [p];
    } else {
      FrameAllAppend(ps[1..], p);
      assert (ps + [p])[1..] == ps[1..] + [p];
    }
  }

  // ---- What a receiver makes of it

  /** Reads frame after frame; a cut-off frame makes the whole text unreadable. */
  function Decode(data: seq<Byte>): Option<seq<Part>> {
    if data == [] then Some([])
    else if |data| < 5 || |data| < 5 + FromBe32(data[1..5]) then None
    else
      var end := 5 + FromBe32(data[1..5]);
      match Decode(data[end..])
      case None => None
      case Some(rest) => Some([Part(data[0], data[5..end])] + rest)
  }

  predicate Fits(p: Part) { |p.payload| < U32 }

  lemma FirstFrame(p: Part, rest: seq<Byte>)
    ensures var data := Frame(p) + rest;
            data[0] == p.flag && FromBe32(data[1..5]) == |p.payload| % U32 && data[5..] == p.payload + rest
  {
    Be32RoundTrip(|p.payload|);
    assert (Frame(p) + rest)[1..5] == Be32(|p.payload|);
  }

  lemma DecodesFirst(p: Part, rest: seq<Byte>)
    requires Fits(p)
    ensures Decode(Frame(p) + rest)
         == match Decode(rest) case None => None case Some(ps) => Some([p] + ps)
  {
    hide Frame, FromBe32;
    FirstFrame(p, rest);
    SplitAfterHeader(Frame(p) + rest, p.payload, rest);
    DecodeStep(Frame(p) + rest, p.payload, rest);
  }

  lemma DecodeStep(data: seq<Byte>, payload: seq<Byte>, rest: seq<Byte>)
    requires |data| >= 5 && FromBe32(data[1..5]) == |payload| && data[5..] == payload + rest
    requires data[5..5 + |payload|] == payload && data[5 + |payload|..] == rest
    ensures Decode(data) == match Decode(rest) case None => None case Some(ps) => Some([Part(data[0], payload)] + ps)
  {
  }

  lemma SplitAfterHeader(data: seq<Byte>, payload: seq<Byte>, rest: seq<Byte>)
    requires |data| >= 5 && data[5..] == payload + rest
    ensures var end := 5 + |payload|; end <= |data| && data[5..end] == payload && data[end..] == rest
  {
  }

  /** Framed parts are read back exactly when every payload's length fits the length field. */
  lemma {:induction false} DecodesExactly(ps: seq<Part>)
    ensures Decode(FrameAll(ps)) == Some(ps) <==> forall i :: 0 <= i < |ps| ==> Fits(ps[i])
  {
    hide Frame, Fits;
    if ps != [] {
      var rest := ps[1..];
      DecodesExactly(rest);
      assert forall i :: 0 <= i < |rest| ==> rest[i] == ps[i + 1];
      assert forall i :: 1 <= i < |ps| ==> ps[i] == rest[i - 1];
      if Fits(ps[0]) {
        DecodesFirst(ps[0], FrameAll(rest));
        if Decode(FrameAll(rest)).Some? {
          var tail := Decode(FrameAll(rest)).value;
          assert ([ps[0]] + tail)[1..] == tail;
          assert ps == [ps[0]] + rest;
        }
      } else {
        TooLongFails(ps);
      }
    }
  }

  lemma TooLongFails(ps: seq<Part>)
    requires ps != [] && !Fits(ps[0])
    ensures Decode(FrameAll(ps)) != Some(ps)
  {
  }

  /** Every response is one data frame, unless the body is empty, and one trailer frame. */
  lemma ResponseDecodesExactly(body: seq<Byte>, status: seq<Byte>, message: seq<Byte>)
    ensures Decode(FrameAll(Parts(body, status, message))) == Some(Parts(body, status, message))
            <==> |Inner(body)| < U32 && |TrailerText(status, message)| < U32
  {
    hide TrailerText, Inner;
    var ps := Parts(body, status, message);
    DecodesExactly(ps);
    assert ps[|ps| - 1] == Part(TRAILERS, TrailerText(status, message));
    if body == [] {
      EmptyInner();
    }
  }

  lemma EmptyInner()
    ensures Inner([]) == []
  {
  }

  // ---- The trailer text

  /** What precedes the first line end, and what follows it. */
  function TakeLine(t: seq<Byte>): Option<(seq<Byte>, seq<Byte>)> {
    if |t| < 2 then None
    else if t[0] == CR && t[1] == LF then Some(([], t[2..]))
    else match TakeLine(t[1..])
      case None => None
      case Some((line, rest)) => Some(([t[0]] + line, rest))
  }

  lemma {:induction false} TakesLine(line: seq<Byte>, rest: seq<Byte>)
    requires CR !in line
    ensures TakeLine(line + [CR, LF] + rest) == Some((line, rest))
  {
    var t := line + [CR, LF] + rest;
    if line == [] {
      assert t[2..] == rest;
    } else {
      TakesLine(line[1..], rest);
      assert t[1..] == line[1..] + [CR, LF] + rest && t[0] == line[0] != CR;
      assert [line[0]] + line[1..] == line;
    }
  }

  function Field(t: seq<Byte>, name: seq<Byte>): Option<(seq<Byte>, seq<Byte>)> {
    match TakeLine(t)
    case None => None
    case Some((line, rest)) => if name <= line then Some((line[|name|..], rest)) else None
  }

  /** Status and message of a trailer text that holds just these two fields. */
  function ParseTrailer(t: seq<Byte>): Option<(seq<Byte>, seq<Byte>)> {
    match Field(t, STATUS)
    case None => None
    case Some((status, rest)) =>
      match Field(rest, MESSAGE)
      case None => None
      case Some((message, end)) => if end == [] then Some((status, message)) else None
  }

  lemma FieldRoundTrip(name: seq<Byte>, value: seq<Byte>, rest: seq<Byte>)
    requires CR !in name && CR !in value
    ensures Field(name + value + [CR, LF] + rest, name) == Some((value, rest))
  {
    TakesLine(name + value, rest);
  }

  /** The receiver recovers status and message, whatever the headers held. */
  lemma TrailerRoundTrip(statusHeader: Option<seq<Byte>>, messageHeader: Option<seq<Byte>>)
    ensures var status, message := HeaderText(statusHeader, ZERO), HeaderText(messageHeader, []);
            ParseTrailer(TrailerText(status, message)) == Some((status, message))
  {
    var status, message := HeaderText(statusHeader, ZERO), HeaderText(messageHeader, []);
    var second := MESSAGE + message + [CR, LF];
    FieldRoundTrip(STATUS, status, second);
    FieldRoundTrip(MESSAGE, message, []);
    assert second + [] == second;
    assert TrailerText(status, message) == STATUS + status + [CR, LF] + second;
  }

  // ---- Bodies that are framed already

  /**
   A body of gRPC frames is passed on as it is exactly when it is empty or a single uncompressed frame:
   several frames are wrapped into one, and a compressed frame loses its flag.
   */
  lemma PassedOnExactly(ps: seq<Part>)
    requires forall i :: 0 <= i < |ps| ==> Fits(ps[i]) && (ps[i].flag == DATA || ps[i].flag == COMPRESSED)
    ensures FrameAll(DataParts(FrameAll(ps))) == FrameAll(ps)
            <==> ps == [] || (|ps| == 1 && ps[0].flag == DATA)
  {
    hide Frame, FrameAll, Inner;
    if |ps| == 1 {
      FrameIs(ps[0]);
      assert ps == [ps[0]];
      OnePassedOn(ps[0]);
    } else if |ps| > 1 {
      SeveralWrapped(ps);
    } else {
      NoFrames();
    }
  }

  lemma OnePassedOn(p: Part)
    requires Fits(p) && (p.flag == DATA || p.flag == COMPRESSED)
    ensures FrameAll(DataParts(Frame(p))) == Frame(p) <==> p.flag == DATA
  {
    hide Frame, FrameAll;
    FirstFrame(p, []);
    assert Frame(p) + [] == Frame(p) && p.payload + [] == p.payload;
    var out := Part(DATA, p.payload);
    FrameIs(out);
    FirstFrame(out, []);
    assert Frame(out) + [] == Frame(out);
  }

  lemma SeveralWrapped(ps: seq<Part>)
    requires |ps| > 1 && Fits(ps[0])
    ensures FrameAll(DataParts(FrameAll(ps))) != FrameAll(ps)
  {
    hide Frame;
    var rest := FrameAll(ps[1..]);
    assert |rest| >= 5 by { assert rest == Frame(ps[1..][0]) + FrameAll(ps[1..][1..]); }
    LongerThanFrame(ps[0], rest);
    FrameIs(Part(DATA, FrameAll(ps)));
  }

  lemma LongerThanFrame(p: Part, rest: seq<Byte>)
    requires Fits(p) && rest != []
    ensures Inner(Frame(p) + rest) == Frame(p) + rest
  {
    hide Frame, FromBe32;
    FirstFrame(p, rest);
    var body := Frame(p) + rest;
    assert 5 + FromBe32(body[1..5]) < |body|;
  }

  // ---- The response in plain octets

  /** A header that is there and holds only tabs and visible ASCII is taken as it is. */
  lemma HeaderIsTaken(v: seq<Byte>, default: seq<Byte>)
    requires Readable(default)
    ensures HeaderText(None, default) == default
    ensures HeaderText(Some(v), default)
         == if forall i :: 0 <= i < |v| ==> 32 <= v[i] <= 126 || v[i] == 9 then v else default
  {
  }

  /** A length as four octets, the highest first. */
  function Length(n: nat): seq<int> { [n / 16777216, n / 65536 % 256, n / 256 % 256, n % 256] }

  /** What a body that is one frame already holds; any other body is taken whole. */
  function Unwrapped(body: seq<Byte>): seq<Byte> {
    if |body| >= 5 && (body[0] == 0 || body[0] == 1)
       && ((body[1] as int * 256 + body[2]) * 256 + body[3]) * 256 + body[4] + 5 == |body|
    then body[5..] else body
  }

  lemma InnerIsUnwrapped(body: seq<Byte>)
    ensures Inner(body) == Unwrapped(body)
  {
    if |body| >= 5 {
      assert body[1..5] == [body[1], body[2], body[3], body[4]];
      FromBe32Is(body[1], body[2], body[3], body[4]);
      hide FromBe32;
    }
  }

  /** The ASCII octets of "grpc-status:", "grpc-message:" and "0". */
  lemma Names()
    ensures STATUS == [103, 114, 112, 99, 45, 115, 116, 97, 116, 117, 115, 58]
    ensures MESSAGE == [103, 114, 112, 99, 45, 109, 101, 115, 115, 97, 103, 101, 58]
    ensures ZERO == [48]
  {
  }

  lemma FrameOctets(p: Part)
    requires |p.payload| < 4294967296
    ensures Frame(p) == [p.flag] + Length(|p.payload|) + p.payload
  {
    BigEndian32(|p.payload|);
  }

  /** The whole response: one frame of flag 0 unless the body is empty, and one of flag 128 with two lines. */
  lemma ResponseOctets(body: seq<Byte>, status: seq<Byte>, message: seq<Byte>)
    requires var t := [103, 114, 112, 99, 45, 115, 116, 97, 116, 117, 115, 58] + status + [13, 10]
                      + [103, 114, 112, 99, 45, 109, 101, 115, 115, 97, 103, 101, 58] + message + [13, 10];
             |t| < 4294967296 && |Unwrapped(body)| < 4294967296
    ensures var t := [103, 114, 112, 99, 45, 115, 116, 97, 116, 117, 115, 58] + status + [13, 10]
                     + [103, 114, 112, 99, 45, 109, 101, 115, 115, 97, 103, 101, 58] + message + [13, 10];
            FrameAll(Parts(body, status, message))
            == (if body == [] then [] else [0] + Length(|Unwrapped(body)|) + Unwrapped(body))
               + ([128] + Length(|t|) + t)
  {
    var t := TrailerText(status, message);
    Names();
    assert t == [103, 114, 112, 99, 45, 115, 116, 97, 116, 117, 115, 58] + status + [13, 10]
                + [103, 114, 112, 99, 45, 109, 101, 115, 115, 97, 103, 101, 58] + message + [13, 10];
    InnerIsUnwrapped(body);
    hide Frame, TrailerText, Inner, Unwrapped, Length;
    FrameOctets(Part(TRAILERS, t));
    FrameAllAppend(DataParts(body), Part(TRAILERS, t));
    if body == [] {
      NoFrames();
    } else {
      FrameOctets(Part(DATA, Inner(body)));
      FrameIs(Part(DATA, Inner(body)));
    }
  }
}
