/**
 Framing of BGP messages on a byte stream (RFC 4271, section 4.1) and the loop that reads them.
 */
module MessageStream {
  import opened Basics
  import opened Bytes
  import PathAttributes
  import Update

  const HEADER_LENGTH := 19
  const MAX_MESSAGE := 4096
  const UPDATE := 2
  const NOTIFICATION := 3

  datatype Message = Message(kind: Byte, body: seq<Byte>)

  datatype Built = Built(bytes: seq<Byte>) | TooLarge

  /** How a session's read loop is left. */
  datatype End =
    | Closed    // no further header: end of stream, or a wrong marker
    | Failed    // an UPDATE body was cut off
    | Notified  // the peer sent a NOTIFICATION
    | Panicked  // a length below 19 asks for a buffer of negative size

  function Marker(): (m: seq<Byte>)
    ensures |m| == 16
  {
    seq(16, _ => 0xff)
  }

  function Frame(m: Message): (f: seq<Byte>)
    requires HEADER_LENGTH + |m.body| < 0x1_0000
    ensures |f| == HEADER_LENGTH + |m.body|
  {
    Marker() + Be16(HEADER_LENGTH + |m.body|) + [m.kind] + m.body
  }

  predicate Framable(ms: seq<Message>) { forall i :: 0 <= i < |ms| ==> HEADER_LENGTH + |ms[i].body| < 0x1_0000 }

  function FrameAll(ms: seq<Message>): seq<Byte>
    requires Framable(ms)
  {
    if ms == [] then [] else Frame(ms[0]) + FrameAll(ms[1..])
  }

  // ---- Writing

  method BuildBgpMsg(kind: Byte, body: seq<Byte>) returns (r: Built)
    ensures r == if 19 + |body| > 4096 then TooLarge else Built(Frame(Message(kind, body)))
  {
    var total := HEADER_LENGTH + |body|;
    if total > MAX_MESSAGE {
      return TooLarge;
    }
    var msg := new Byte[total](_ => 0);
    for i := 0 to 16
      invariant forall j :: 0 <= j < i ==> msg[j] == 0xff
    {
      msg[i] := 0xff;
    }
    msg[16], msg[17] := Be16(total)[0], Be16(total)[1];
    msg[18] := kind;
    for i := 0 to |body|
      invariant forall j :: 0 <= j < 16 ==> msg[j] == 0xff
      invariant [msg[16], msg[17]] == Be16(total) && msg[18] == kind
      invariant forall j :: 0 <= j < i ==> msg[HEADER_LENGTH + j] == body[j]
    {
      msg[HEADER_LENGTH + i] := body[i];
    }
    OctetsOfFrame(msg[..], Message(kind, body));
    r := Built(msg[..]);
  }

  lemma OctetsOfFrame(s: seq<Byte>, m: Message)
    requires |s| == HEADER_LENGTH + |m.body| < 0x1_0000
    requires forall j :: 0 <= j < 16 ==> s[j] == 0xff
    requires [s[16], s[17]] == Be16(|s|) && s[18] == m.kind
    requires forall j :: 0 <= j < |m.body| ==> s[HEADER_LENGTH + j] == m.body[j]
    ensures s == Frame(m)
  {
    hide Be16;
    assert s[16..18] == [s[16], s[17]];
    assert s[..16] == Marker() && s[19..] == m.body;
    assert s == s[..16] + s[16..18] + [s[18]] + s[19..];
  }

  // ---- Reading

  datatype Header = Header(kind: Byte, length: nat)

  function ReadHeader(stream: seq<Byte>): (h: Header)
    requires |stream| >= HEADER_LENGTH
    ensures h.length < 0x1_0000
  {
    Header(stream[18], FromBe16(stream[16], stream[17]))
  }

  predicate HasHeader(stream: seq<Byte>) { |stream| >= HEADER_LENGTH && stream[..16] == Marker() }

  /** The stream starts with a whole message that the loop reads and goes on after. */
  predicate HasMessage(stream: seq<Byte>) {
    && HasHeader(stream)
    && ReadHeader(stream).kind != NOTIFICATION
    && HEADER_LENGTH <= ReadHeader(stream).length <= |stream|
  }

  function FirstMessage(stream: seq<Byte>): Message
    requires HasMessage(stream)
  {
    Message(ReadHeader(stream).kind, stream[HEADER_LENGTH..ReadHeader(stream).length])
  }

  function Delivered(stream: seq<Byte>): seq<Message> {
    if !HasMessage(stream) then []
    else [FirstMessage(stream)] + Delivered(stream[ReadHeader(stream).length..])
  }

  function Unread(stream: seq<Byte>): (rest: seq<Byte>)
    ensures !HasMessage(rest)
  {
    if !HasMessage(stream) then stream else Unread(stream[ReadHeader(stream).length..])
  }

  /** Why the loop stops at a stream it cannot read a message from. */
  function Stop(stream: seq<Byte>): End
    requires !HasMessage(stream)
  {
    if !HasHeader(stream) then Closed
    else if ReadHeader(stream).kind == NOTIFICATION then Notified
    else if ReadHeader(stream).length < HEADER_LENGTH then Panicked
    else if ReadHeader(stream).kind == UPDATE then Failed
    else Closed
  }

  function ChangesOf(d: PathAttributes.Digests, ms: seq<Message>): seq<Update.PathChange> {
    if ms == [] then []
    else
      var m := ms[|ms| - 1];
      ChangesOf(d, ms[..|ms| - 1]) + (if m.kind == UPDATE then Update.Parsed(d, m.body) else [])
  }

  /** What gets through a channel that its receiver closes after `open` more changes. */
  function Through(changes: seq<Update.PathChange>, open: nat): (sent: seq<Update.PathChange>)
    ensures sent <= changes && |sent| == if open < |changes| then open else |changes|
  {
    changes[..Min(open, |changes|)]
  }

  method HandleSession(d: PathAttributes.Digests, stream: seq<Byte>, open: nat)
    returns (sent: seq<Update.PathChange>, end: End)
    ensures sent == Through(ChangesOf(d, Delivered(stream)), open) && end == Stop(Unread(stream))
  {
    hide Update.Parsed, Delivered, Unread;
    sent := [];
    var pos := 0;
    ghost var seen: seq<Message> := [];
    assert stream[pos..] == stream;
    while true
      invariant 0 <= pos <= |stream|
      invariant Delivered(stream) == seen + Delivered(stream[pos..])
      invariant Unread(stream) == Unread(stream[pos..]) && sent == Through(ChangesOf(d, seen), open)
      decreases |stream| - pos
    {
      HeaderAt(stream, pos);
      LastMessage(stream, pos, seen);
      if pos + HEADER_LENGTH > |stream| || stream[pos..pos + 16] != Marker() {
        return sent, Closed;
      }
      var length := FromBe16(stream[pos + 16], stream[pos + 17]);
      var kind := stream[pos + 18];
      if kind == NOTIFICATION {
        return sent, Notified;
      }
      if length < HEADER_LENGTH {
        return sent, Panicked;
      }
      if pos + length > |stream| {
        return sent, if kind == UPDATE then Failed else Closed;
      }
      var m := Message(kind, stream[pos + HEADER_LENGTH..pos + length]);
      NextMessage(stream, pos, pos + length);
      ChangesOfAppend(d, seen, m);
      if kind == UPDATE {
        var found := Update.ParseUpdate(d, m.body);
        sent := Send(ChangesOf(d, seen), sent, found, open);
      }
      seen := seen + [m];
      pos := pos + length;
    }
  }

  /** Sends the changes of one message; the first send that fails ends it. */
  method Send(ghost before: seq<Update.PathChange>, sent: seq<Update.PathChange>, found: seq<Update.PathChange>,
              open: nat)
    returns (r: seq<Update.PathChange>)
    requires sent == Through(before, open)
    ensures r == Through(before + found, open)
  {
    r := sent;
    for i := 0 to |found|
      invariant r == Through(before + found[..i], open)
    {
      if |r| == open {
        assert before + found == (before + found[..i]) + found[i..];
        return;
      }
      r := r + [found[i]];
      assert found[..i + 1] == found[..i] + [found[i]];
    }
    assert found[..|found|] == found;
  }

  lemma HeaderAt(stream: seq<Byte>, pos: nat)
    requires pos <= |stream|
    ensures HasHeader(stream[pos..])
            <==> pos + HEADER_LENGTH <= |stream| && stream[pos..pos + 16] == Marker()
    ensures pos + HEADER_LENGTH <= |stream| ==>
              ReadHeader(stream[pos..]) == Header(stream[pos + 18], FromBe16(stream[pos + 16], stream[pos + 17]))
  {
  }

  lemma LastMessage(stream: seq<Byte>, pos: nat, seen: seq<Message>)
    requires pos <= |stream|
    requires Delivered(stream) == seen + Delivered(stream[pos..]) && Unread(stream) == Unread(stream[pos..])
    ensures !HasMessage(stream[pos..]) ==> Delivered(stream) == seen && Unread(stream) == stream[pos..]
  {
  }

  lemma NextMessage(stream: seq<Byte>, pos: nat, end: nat)
    requires pos <= |stream| && HasMessage(stream[pos..]) && end == pos + ReadHeader(stream[pos..]).length
    ensures Delivered(stream[pos..])
         == [Message(stream[pos + 18], stream[pos + HEADER_LENGTH..end])] + Delivered(stream[end..])
    ensures Unread(stream[pos..]) == Unread(stream[end..])
  {
    var here := stream[pos..];
    assert here[HEADER_LENGTH..end - pos] == stream[pos + HEADER_LENGTH..end];
    assert here[end - pos..] == stream[end..];
    assert FirstMessage(here) == Message(stream[pos + 18], stream[pos + HEADER_LENGTH..end]);
    hide HasMessage, FirstMessage, ReadHeader;
    Step(here);
  }

  lemma Step(stream: seq<Byte>)
    requires HasMessage(stream)
    ensures Delivered(stream) == [FirstMessage(stream)] + Delivered(stream[ReadHeader(stream).length..])
    ensures Unread(stream) == Unread(stream[ReadHeader(stream).length..])
  {
  }

  lemma ChangesOfAppend(d: PathAttributes.Digests, ms: seq<Message>, m: Message)
    ensures ChangesOf(d, ms + [m])
         == ChangesOf(d, ms) + (if m.kind == UPDATE then Update.Parsed(d, m.body) else [])
  {
  }

  // ---- Framing is exact

  predicate Continuing(ms: seq<Message>) { forall i :: 0 <= i < |ms| ==> ms[i].kind != NOTIFICATION }

  /** What is delivered accounts for every byte before the place where the loop stops. */
  lemma {:induction false} Accounted(stream: seq<Byte>)
    ensures Framable(Delivered(stream)) && Continuing(Delivered(stream))
    ensures stream == FrameAll(Delivered(stream)) + Unread(stream)
  {
    hide Frame, FirstMessage;
    if HasMessage(stream) {
      var m, rest := FirstMessage(stream), stream[ReadHeader(stream).length..];
      Accounted(rest);
      FrameOfFirst(stream);
      FrameAllCons(m, Delivered(rest));
      Glue(Frame(m), FrameAll(Delivered(rest)), Unread(rest));
    }
  }

  lemma FrameAllCons(m: Message, ms: seq<Message>)
    requires Framable(ms) && HEADER_LENGTH + |m.body| < 0x1_0000
    ensures Framable([m] + ms) && FrameAll([m] + ms) == Frame(m) + FrameAll(ms)
  {
  }

  lemma FrameOfFirst(stream: seq<Byte>)
    requires HasMessage(stream)
    ensures HEADER_LENGTH + |FirstMessage(stream).body| < 0x1_0000
    ensures FirstMessage(stream).kind != NOTIFICATION
    ensures stream == Frame(FirstMessage(stream)) + stream[ReadHeader(stream).length..]
  {
  }

  /** Written messages are read back one by one, whatever follows them on the stream. */
  lemma {:induction false} FramingRoundTrip(ms: seq<Message>, rest: seq<Byte>)
    requires Framable(ms) && Continuing(ms)
    ensures Delivered(FrameAll(ms) + rest) == ms + Delivered(rest)
    ensures Unread(FrameAll(ms) + rest) == Unread(rest)
  {
    hide Frame, Delivered, Unread;
    if ms == [] {
      assert FrameAll(ms) + rest == rest;
    } else {
      FramingRoundTrip(ms[1..], rest);
      Glue(Frame(ms[0]), FrameAll(ms[1..]), rest);
      DeliversFrame(ms[0], FrameAll(ms[1..]) + rest);
      assert ms == [ms[0]] + ms[1..];
    }
  }

  lemma DeliversFrame(m: Message, rest: seq<Byte>)
    requires HEADER_LENGTH + |m.body| < 0x1_0000 && m.kind != NOTIFICATION
    ensures Delivered(Frame(m) + rest) == [m] + Delivered(rest) && Unread(Frame(m) + rest) == Unread(rest)
  {
    hide Frame, HasMessage, FirstMessage, ReadHeader, Delivered, Unread;
    ReadsFrame(m, rest);
    Step(Frame(m) + rest);
  }

  lemma ReadsFrame(m: Message, rest: seq<Byte>)
    requires HEADER_LENGTH + |m.body| < 0x1_0000 && m.kind != NOTIFICATION
    ensures var stream := Frame(m) + rest;
            && HasMessage(stream) && FirstMessage(stream) == m && stream[ReadHeader(stream).length..] == rest
  {
  }

  /** Bytes and deliveries determine each other: nothing is invented, dropped, split or merged. */
  lemma DeliveredExactly(stream: seq<Byte>, ms: seq<Message>, rest: seq<Byte>)
    ensures Delivered(stream) == ms && Unread(stream) == rest
            <==> Framable(ms) && Continuing(ms) && !HasMessage(rest) && stream == FrameAll(ms) + rest
  {
    Accounted(stream);
    if Framable(ms) && Continuing(ms) && !HasMessage(rest) {
      FramingRoundTrip(ms, rest);
      assert ms + [] == ms;
    }
  }

  // ---- When a session panics

  /** A header that asks for fewer than no octets: a length below 19 in any message but a NOTIFICATION. */
  predicate ShortHeader(rest: seq<Byte>) {
    HasHeader(rest) && ReadHeader(rest).kind != NOTIFICATION && ReadHeader(rest).length < HEADER_LENGTH
  }

  /** A session panics if and only if, behind whole messages, it comes to such a header. */
  lemma PanicsExactly(stream: seq<Byte>)
    ensures Stop(Unread(stream)).Panicked?
            <==> exists ms, rest ::
                   Framable(ms) && Continuing(ms) && stream == FrameAll(ms) + rest && ShortHeader(rest)
  {
    if Stop(Unread(stream)).Panicked? {
      Accounted(stream);
      assert ShortHeader(Unread(stream));
    }
    if ms, rest :| Framable(ms) && Continuing(ms) && stream == FrameAll(ms) + rest && ShortHeader(rest) {
      DeliveredExactly(stream, ms, rest);
    }
  }

  /** Nineteen octets are enough: an UPDATE header that gives its own length as 0. */
  lemma ShortUpdatePanics()
    ensures Stop(Unread(Marker() + [0, 0, UPDATE])) == Panicked
  {
    var stream: seq<Byte> := Marker() + [0, 0, UPDATE];
    assert stream[..16] == Marker();
    assert ShortHeader(stream) && FrameAll([]) + stream == stream;
    PanicsExactly(stream);
  }

  // ---- From routes to path changes, over a whole stream

  function Updates(us: seq<Update.Message>): (ms: seq<Message>)
    requires forall i :: 0 <= i < |us| ==> us[i].Valid()
    ensures |ms| == |us| && forall i :: 0 <= i < |us| ==> ms[i] == Message(UPDATE, Update.Encode(us[i]))
  {
    seq(|us|, i requires 0 <= i < |us| => Message(UPDATE, Update.Encode(us[i])))
  }

  function Meanings(d: PathAttributes.Digests, us: seq<Update.Message>): seq<Update.PathChange>
    requires forall i :: 0 <= i < |us| ==> us[i].Valid()
  {
    if us == [] then [] else Meanings(d, us[..|us| - 1]) + us[|us| - 1].Meaning(d)
  }

  /** A session fed with framed UPDATE messages reports exactly what they say, in order, and then closes. */
  lemma StreamMeaning(d: PathAttributes.Digests, us: seq<Update.Message>)
    requires forall i :: 0 <= i < |us| ==> us[i].Valid()
    requires Framable(Updates(us))
    ensures var stream := FrameAll(Updates(us));
            && ChangesOf(d, Delivered(stream)) == Meanings(d, us)
            && Stop(Unread(stream)) == Closed
  {
    var ms := Updates(us);
    FramingRoundTrip(ms, []);
    assert FrameAll(ms) + [] == FrameAll(ms) && ms + [] == ms;
    ChangesOfUpdates(d, us);
  }

  lemma {:induction false} ChangesOfUpdates(d: PathAttributes.Digests, us: seq<Update.Message>)
    requires forall i :: 0 <= i < |us| ==> us[i].Valid()
    ensures ChangesOf(d, Updates(us)) == Meanings(d, us)
  {
    hide Update.Parsed, Update.Encode, Update.Message.Meaning;
    if us != [] {
      var front, last := us[..|us| - 1], us[|us| - 1];
      ChangesOfUpdates(d, front);
      Update.UpdateRoundTrip(d, last);
      assert Updates(us)[..|us| - 1] == Updates(front);
    }
  }

  // ---- Plain octets

  predicate SixteenOnes(m: seq<Byte>) { |m| == 16 && forall i :: 0 <= i < 16 ==> m[i] == 255 }

  /** What is written: sixteen octets 255, the whole length, high octet first, the type, the body. */
  lemma WritesOctets(m: Message, ones: seq<Byte>)
    requires 19 + |m.body| < 65536 && SixteenOnes(ones)
    ensures var n := 19 + |m.body|; Frame(m) == ones + [n / 256, n % 256] + [m.kind] + m.body
  {
    BigEndian16(19 + |m.body|);
    assert ones == Marker();
  }

  /** What is read, and why it is not: by marker, type octet and length alone. */
  lemma ReadsOrStops(stream: seq<Byte>)
    requires |stream| >= 19 && SixteenOnes(stream[..16])
    ensures var n := 256 * (stream[16] as int) + stream[17];
            var kind := stream[18];
            if kind != 3 && 19 <= n <= |stream|
            then HasMessage(stream) && FirstMessage(stream) == Message(kind, stream[19..n])
                 && Delivered(stream) == [Message(kind, stream[19..n])] + Delivered(stream[n..])
                 && Unread(stream) == Unread(stream[n..])
            else !HasMessage(stream) && Delivered(stream) == [] && Unread(stream) == stream
                 && Stop(stream) == if kind == 3 then Notified else if n < 19 then Panicked
                                    else if kind == 2 then Failed else Closed
  {
    FromBe16Is(stream[16], stream[17]);
    assert stream[..16] == Marker();
    hide FromBe16;
  }

  lemma ClosesWithoutHeader(stream: seq<Byte>)
    requires |stream| < 19 || !SixteenOnes(stream[..16])
    ensures Delivered(stream) == [] && Unread(stream) == stream && Stop(stream) == Closed
  {
    if |stream| >= 19 && stream[..16] == Marker() {
      assert SixteenOnes(stream[..16]);
    }
  }

  /** Messages of type 2 are parsed, and no others. */
  lemma {:induction false} ChangesAre(d: PathAttributes.Digests, ms: seq<Message>, m: Message)
    ensures ChangesOf(d, []) == []
    ensures ChangesOf(d, ms + [m]) == ChangesOf(d, ms) + if m.kind == 2 then Update.Parsed(d, m.body) else []
  {
    ChangesOfAppend(d, ms, m);
  }
}
