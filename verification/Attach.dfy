/**
 Attaching to a VM console: a newline, framed console output and a terminal status follow
 the JSON reply, some of it possibly already read by the JSON decoder.
 */
module Attach {
  import opened Text
  import opened Framing

  const NEWLINE: Byte := 0x0A
  const COPY_BUFFER: nat := 0x8000

  /** What the JSON decoder made of the reply. */
  datatype Reply =
    | Undecodable
    | Refused
    | Accepted(protocol: Protocol)

  datatype Protocol = Absent | Malformed | Protocol(framed: bool)

  datatype Terminal = Terminal(done: bool, error: string)

  datatype Outcome =
    | Finished                // the nil error
    | BadReply | BadDelimiter | BadProtocol
    | OutputFailed | NoTerminal | NotDone | Failed(message: string)

  datatype Copied = CopiedAll | ReadFailed | WriteFailed

  /** What copying a stream that reads as `all` to a sink with `room` did to the sink. */
  ghost predicate CopyDid(c: Copied, all: Deframed, room: nat, was: Bytes, now: Bytes, left: Bytes) {
    match c
    case CopiedAll => all.Whole? && left == all.rest && |all.payload| <= room && now == was + all.payload
    case ReadFailed => all.Broken? && |all.payload| <= room && now == was + all.payload
    case WriteFailed => |all.payload| > room && now == was + all.payload[..room]
  }

  /** One round: reads a chunk and writes it, before its status is looked at. */
  method CopyChunk(fr: FrameReader, out: Sink<Byte>) returns (chunk: Bytes, status: Status, ok: bool)
    requires fr.Valid()
    modifies fr, fr.r, out
    ensures fr.Valid() && Took(old(fr.Pending()), chunk, status, fr.Pending(), fr.r.Data())
    ensures status.Fine? ==> fr.r.Left() < old(fr.r.Left())
    ensures ok ==> out.data == old(out.data) + chunk && |chunk| <= old(out.room) && out.room == old(out.room) - |chunk|
    ensures !ok ==> |chunk| > old(out.room) && out.data == old(out.data) + chunk[..old(out.room)]
  {
    ToReadStaysInside(COPY_BUFFER, fr.FrameAhead());
    chunk, status := fr.Read(COPY_BUFFER);
    ok := true;
    if chunk != [] {
      ok := out.Write(chunk);
    }
  }

  method CopyFrames(fr: FrameReader, out: Sink<Byte>) returns (c: Copied)
    requires fr.Valid()
    modifies fr, fr.r, out
    ensures CopyDid(c, old(fr.Pending()), old(out.room), old(out.data), out.data, fr.r.Data())
  {
    ghost var all, got: Bytes := fr.Pending(), [];
    ghost var data0, room0, pending := out.data, out.room, all;
    ghost var left := 1 + fr.r.Left();
    var status, ok := Fine, true;
    while status.Fine? && ok
      invariant fr.Valid() && pending == fr.Pending()
      invariant CopyDoes(all, got, status, ok, pending, fr.r.Data(), room0, data0, out.data, out.room)
      invariant status.Fine? && ok ==> left > fr.r.Left()
      decreases left
    {
      ghost var room, before, data := out.room, pending, out.data;
      left := fr.r.Left();
      var chunk;
      chunk, status, ok := CopyChunk(fr, out);
      pending := fr.Pending();
      Round(all, got, before, chunk, status, ok, pending, fr.r.Data(), room0, data0, data, room, out.data, out.room);
      got := got + chunk;
    }
    c := if !ok then WriteFailed else if status.Eof? then CopiedAll else ReadFailed;
  }

  /** Between two rounds: `got` has been copied, and `pending` is what is left. */
  ghost predicate CopyDoes(all: Deframed, got: Bytes, status: Status, ok: bool, pending: Deframed, left: Bytes,
                           room0: nat, data0: Bytes, data: Bytes, room: nat)
  {
    if !ok then CopyDid(WriteFailed, all, room0, data0, data, left)
    else
      && data == data0 + got && |got| <= room0 && room == room0 - |got|
      && match status
         case Fine => all == Prepend(got, pending)
         case Eof => all == Whole(got, left)
         case _ => all == Broken(got)
  }

  /** One round: what was read from `before`, and written to a sink holding `data` with `room` left. */
  lemma Round(all: Deframed, got: Bytes, before: Deframed, chunk: Bytes, status: Status, ok: bool, after: Deframed,
              left: Bytes,
              room0: nat, data0: Bytes, data: Bytes, room: nat, data': Bytes, room': nat)
    requires data == data0 + got && |got| <= room0 && room == room0 - |got| && all == Prepend(got, before)
    requires Took(before, chunk, status, after, left)
    requires if ok then data' == data + chunk && |chunk| <= room && room' == room - |chunk|
             else |chunk| > room && data' == data + chunk[..room]
    ensures CopyDoes(all, got + chunk, status, ok, after, left, room0, data0, data', room')
  {
    PrependTwice(got, chunk, after);
    assert data + chunk == data0 + (got + chunk);
    if !ok {
      assert got + chunk <= all.payload;
      assert all.payload[..room0] == (got + chunk)[..room0] == got + chunk[..room];
      assert data' == data0 + (got + chunk[..room]);
    }
  }

  function Limited(p: Bytes, room: nat): Bytes {
    if |p| <= room then p else p[..room]
  }

  lemma RawStops(all: Bytes, got: Bytes, chunk: Bytes, room: nat, data: Bytes)
    requires got + chunk <= all && |got| <= room < |got| + |chunk|
    ensures |all| > room && data + got + chunk[..room - |got|] == data + all[..room]
  {
    assert all[..room] == (got + chunk)[..room] == got + chunk[..room - |got|];
  }

  /** One more chunk of a raw stream has been copied. */
  lemma RawStep(all: Bytes, got: Bytes, chunk: Bytes, rest: Bytes, data: Bytes)
    requires all == got + (chunk + rest)
    ensures all == (got + chunk) + rest && got + chunk <= all && data + got + chunk == data + (got + chunk)
  {
    assert got + (chunk + rest) == (got + chunk) + rest;
  }

  method CopyRaw(stream: Stream, out: Sink<Byte>) returns (c: Copied)
    modifies stream, out
    ensures c == if |old(stream.Data())| > old(out.room) then WriteFailed
                 else if stream.fails then ReadFailed else CopiedAll
    ensures out.data == old(out.data) + Limited(old(stream.Data()), old(out.room))
  {
    ghost var all, data0, room0 := stream.Data(), out.data, out.room;
    ghost var got, rest := [], all;
    var end := false;
    while !end
      invariant rest == stream.Data() && all == got + rest && (end ==> rest == [])
      invariant out.data == data0 + got && |got| <= room0 && out.room == room0 - |got|
      decreases if end then 0 else 1 + stream.Left()
    {
      var chunk;
      chunk, end := stream.Read(COPY_BUFFER);
      rest := stream.Data();
      RawStep(all, got, chunk, rest, data0);
      var ok := out.Write(chunk);
      if !ok {
        RawStops(all, got, chunk, room0, data0);
        return WriteFailed;
      }
      got := got + chunk;
    }
    c := if stream.fails then ReadFailed else CopiedAll;
  }

  ghost predicate Delimited(data: Bytes) {
    data != [] && data[0] == NEWLINE
  }

  /** What the bytes after the reply say on the console, complete or not. */
  ghost function ConsoleBytes(reply: Reply, data: Bytes): Bytes {
    if !reply.Accepted? || !Delimited(data) || reply.protocol.Malformed? then []
    else if reply.protocol == Protocol(true) then Deframe(0, data[1..]).payload
    else data[1..]
  }

  /** After the reply came a newline, whole frames carrying `payload`, and then `rest`. */
  ghost predicate Session(data: Bytes, payload: Bytes, rest: Bytes) {
    Delimited(data) && Deframe(0, data[1..]) == Whole(payload, rest)
  }

  ghost predicate DoneWell(t: Option<Terminal>) {
    t.Some? && t.value.done && t.value.error == ""
  }

  /** Any console output, written in frames by the daemon, makes a session carrying exactly that output. */
  lemma DaemonMakesSession(ws: seq<Bytes>, rest: Bytes)
    requires FitFrames(ws)
    ensures Session([0x0A] + Frames(ws) + [0, 0, 0, 0] + rest, Concat(ws), rest)
  {
    RoundTrip(ws, rest);
    SessionOf(Frames(ws) + TERMINATOR + rest, Concat(ws), rest);
    assert [NEWLINE] + Frames(ws) + TERMINATOR + rest == [NEWLINE] + (Frames(ws) + TERMINATOR + rest);
  }

  lemma SessionOf(frames: Bytes, payload: Bytes, rest: Bytes)
    requires Deframe(0, frames) == Whole(payload, rest)
    ensures Session([NEWLINE] + frames, payload, rest)
  {
    assert ([NEWLINE] + frames)[1..] == frames;
  }

  /** A session whose frames are cut short is no session at all. */
  lemma CutSession(ws: seq<Bytes>, k: nat, payload: Bytes, rest: Bytes)
    requires FitFrames(ws) && k < |Frames(ws) + TERMINATOR|
    ensures !Session([NEWLINE] + (Frames(ws) + TERMINATOR)[..k], payload, rest)
  {
    CutIsNoticed(ws, k);
    assert ([NEWLINE] + (Frames(ws) + TERMINATOR)[..k])[1..] == (Frames(ws) + TERMINATOR)[..k];
  }

  /** `terminal` stands for decoding one JSON value from the bytes that follow the frames. */
  method Attach(reply: Reply, stream: Stream, out: Sink<Byte>, terminal: Bytes -> Option<Terminal>)
    returns (r: Outcome)
    modifies stream, out
    ensures reply == Accepted(Protocol(true)) ==>
              (r.Finished? <==> exists payload, rest :: Session(old(stream.Data()), payload, rest) &&
                                                        |payload| <= old(out.room) && DoneWell(terminal(rest)))
    ensures reply.Accepted? && reply.protocol != Protocol(true) ==>
              (r.Finished? <==> !reply.protocol.Malformed? && Delimited(old(stream.Data())) &&
                                |old(stream.Data())| - 1 <= old(out.room) && !stream.fails)
    ensures !reply.Accepted? ==> r.BadReply?
    ensures out.data == old(out.data) + Limited(ConsoleBytes(reply, old(stream.Data())), old(out.room))
  {
    if !reply.Accepted? { return BadReply; }
    ghost var data := stream.Data();
    var delimiter, ok := stream.ReadFull(1);
    if !ok { return BadDelimiter; }
    assert delimiter == [data[0]] && stream.Data() == data[1..];
    if delimiter[0] != NEWLINE { return BadDelimiter; }
    if reply.protocol.Malformed? { return BadProtocol; }
    if reply.protocol != Protocol(true) {
      var raw := CopyRaw(stream, out);
      return if raw.CopiedAll? then Finished else OutputFailed;
    }
    r := FollowFrames(stream, out, terminal);
  }

  /** The framed part of a session: the console output, then the terminal status. */
  method FollowFrames(stream: Stream, out: Sink<Byte>, terminal: Bytes -> Option<Terminal>) returns (r: Outcome)
    modifies stream, out
    ensures var d := old(Deframe(0, stream.Data()));
            && (r.Finished? <==> d.Whole? && |d.payload| <= old(out.room) && DoneWell(terminal(d.rest)))
            && out.data == old(out.data) + Limited(d.payload, old(out.room))
  {
    var fr := new FrameReader(stream);
    var c := CopyFrames(fr, out);
    if !c.CopiedAll? { return OutputFailed; }
    var t := terminal(RestOf(stream));
    if t.None? { return NoTerminal; }
    if !t.value.done { return NotDone; }
    if t.value.error != "" { return Failed(t.value.error); }
    r := Finished;
  }

  function RestOf(stream: Stream): (rest: Bytes)
    reads stream
    ensures rest == stream.Data()
  {
    stream.buffered + stream.conn
  }
}
