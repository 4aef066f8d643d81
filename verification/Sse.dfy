/**
 Server-sent events: the writer, and the parser of sections 9.2.5 and 9.2.6 of the WHATWG
 HTML standard, which recovers exactly what was written.
 */
module Sse {
  import opened Text

  datatype Event = Event(name: string, data: string)

  // ---------------------------------------------------------------- the writer

  function DataLine(line: string): string {
    "data: " + line + "\n"
  }

  function DataLines(lines: seq<string>): string {
    if lines == [] then [] else DataLine(lines[0]) + DataLines(lines[1..])
  }

  function NameLine(name: string): string {
    if name == "" then "" else "event: " + name + "\n"
  }

  function EventText(name: string, data: string): string {
    NameLine(name) + DataLines(Split(data, '\n')) + "\n"
  }

  /** Writes the next piece of a text `done + (piece + after)` into a sink with room for `total` characters of it. */
  method Emit(w: Sink<char>, piece: string, ghost was: string, ghost total: nat, ghost done: string,
              ghost after: string)
    returns (ok: bool)
    requires w.data == was + done && w.room + |done| == total
    modifies w
    ensures ok ==> w.data == was + (done + piece) && w.room + |done + piece| == total
    ensures ok ==> done + (piece + after) == (done + piece) + after
    ensures !ok ==> total < |done + piece| && w.data == was + (done + (piece + after))[..total]
  {
    assert done + (piece + after) == (done + piece) + after;
    assert w.room <= |piece| ==> done + piece[..w.room] == (done + (piece + after))[..total];
    ok := w.Write(piece);
  }

  /** Writes every data line, after `done`. */
  method EmitLines(w: Sink<char>, lines: seq<string>, ghost was: string, ghost total: nat, ghost done: string)
    returns (ok: bool)
    requires w.data == was + done && w.room + |done| == total
    modifies w
    ensures ok ==> w.data == was + (done + DataLines(lines)) && w.room + |done + DataLines(lines)| == total
    ensures !ok ==> total < |done + DataLines(lines)| && w.data == was + (done + DataLines(lines))[..total]
  {
    ghost var sent, text := done, done + DataLines(lines);
    assert lines[0..] == lines;
    for i := 0 to |lines|
      invariant w.data == was + sent && w.room + |sent| == total
      invariant text == sent + DataLines(lines[i..])
    {
      var line := DataLine(lines[i]);
      DataLinesStep(lines, i);
      ok := Emit(w, line, was, total, sent, DataLines(lines[i + 1..]));
      if !ok { return; }
      sent := sent + line;
    }
    assert text == sent;
    ok := true;
  }

  /** Writes the event's text, or as much of it as the writer takes before it fails. */
  method WriteSSEEvent(w: Sink<char>, name: string, data: string) returns (ok: bool)
    modifies w
    ensures ok == (|EventText(name, data)| <= old(w.room))
    ensures w.data == old(w.data) + if ok then EventText(name, data) else EventText(name, data)[..old(w.room)]
  {
    ghost var was, total, start := w.data, w.room, NameLine(name);
    var lines := Split(data, '\n');
    ghost var most := start + DataLines(lines);
    if name != "" {
      ok := Emit(w, NameLine(name), was, total, "", DataLines(lines));
      if !ok {
        assert most[..total] == (most + "\n")[..total];
        return;
      }
    }
    ok := EmitLines(w, lines, was, total, start);
    if !ok {
      assert most[..total] == (most + "\n")[..total];
      return;
    }
    ok := Emit(w, "\n", was, total, most, "");
  }

  lemma DataLinesStep(lines: seq<string>, i: nat)
    requires i < |lines|
    ensures DataLines(lines[i..]) == DataLine(lines[i]) + DataLines(lines[i + 1..])
  {
    assert lines[i..][1..] == lines[i + 1..];
  }

  predicate IsComment(data: string) {
    data != "" && data[0] == ':'
  }

  /** The event loop writes data that starts with a colon as a comment. */
  function Written(ev: Event): string {
    if IsComment(ev.data) then ev.data + "\n\n" else EventText(ev.name, ev.data)
  }

  function StreamOf(evs: seq<Event>): string {
    if evs == [] then [] else Written(evs[0]) + StreamOf(evs[1..])
  }

  // ---------------------------------------------------------------- the parser

  const BOM: char := '\U{FEFF}'

  /** The lines of s that are ended by LF, CR or CR LF, after the characters `cur` of the first. */
  function Lines(s: string, cur: string): seq<string>
    decreases |s|
  {
    if s == [] then []
    else if s[0] == '\n' then [cur] + Lines(s[1..], [])
    else if s[0] == '\r' then [cur] + Lines(if |s| > 1 && s[1] == '\n' then s[2..] else s[1..], [])
    else Lines(s[1..], cur + [s[0]])
  }

  datatype Parser = Parser(typ: string, data: string, events: seq<Event>)

  function IndexOf(s: string, c: char): (k: nat)
    ensures k <= |s| && c !in s[..k] && (k < |s| ==> s[k] == c)
  {
    if s == [] || s[0] == c then 0 else 1 + IndexOf(s[1..], c)
  }

  function Dispatch(p: Parser): Parser {
    if p.data == "" then Parser("", "", p.events)
    else
      var data := if p.data[|p.data| - 1] == '\n' then p.data[..|p.data| - 1] else p.data;
      Parser("", "", p.events + [Event(if p.typ == "" then "message" else p.typ, data)])
  }

  function Field(p: Parser, field: string, value: string): Parser {
    if field == "event" then p.(typ := value)
    else if field == "data" then p.(data := p.data + value + "\n")
    else p
  }

  function Line(p: Parser, line: string): Parser {
    if line == "" then Dispatch(p)
    else if line[0] == ':' then p
    else
      var k := IndexOf(line, ':');
      if k == |line| then Field(p, line, "")
      else if k + 1 < |line| && line[k + 1] == ' ' then Field(p, line[..k], line[k + 2..])
      else Field(p, line[..k], line[k + 1..])
  }

  function Interpret(lines: seq<string>, p: Parser): Parser
    decreases |lines|
  {
    if lines == [] then p else Interpret(lines[1..], Line(p, lines[0]))
  }

  const IDLE := Parser("", "", [])

  function Parse(s: string): seq<Event> {
    Interpret(Lines(if s != "" && s[0] == BOM then s[1..] else s, []), IDLE).events
  }

  // ---------------------------------------------------------------- the parser undoes the writer

  predicate NoBreak(s: string) {
    '\r' !in s && '\n' !in s
  }

  lemma {:induction false} OneLine(line: string, rest: string, cur: string)
    requires NoBreak(line)
    ensures Lines(line + "\n" + rest, cur) == [cur + line] + Lines(rest, [])
    decreases |line|
  {
    var s := line + "\n" + rest;
    if line == [] {
      assert s[1..] == rest && cur + line == cur;
    } else {
      assert s[1..] == line[1..] + "\n" + rest;
      OneLine(line[1..], rest, cur + [line[0]]);
      assert cur + [line[0]] + line[1..] == cur + line;
    }
  }

  /** Reading one more line of a stream. */
  lemma ReadLine(line: string, rest: string, p: Parser)
    requires NoBreak(line)
    ensures Interpret(Lines(line + "\n" + rest, []), p) == Interpret(Lines(rest, []), Line(p, line))
  {
    OneLine(line, rest, []);
    assert [] + line == line;
    assert ([line] + Lines(rest, []))[1..] == Lines(rest, []);
  }

  lemma NamedField(p: Parser, value: string)
    ensures Line(p, "event: " + value) == p.(typ := value)
    ensures Line(p, "data: " + value) == p.(data := p.data + value + "\n")
  {
    var e, d := "event: " + value, "data: " + value;
    assert e[5] == ':' && e[..5] == "event" && e[7..] == value;
    assert d[4] == ':' && d[..4] == "data" && d[6..] == value;
    assert IndexOf(e, ':') == 5 by { assert forall i :: 0 <= i < 5 ==> e[i] == "event"[i]; FirstAt(e, ':', 5); }
    assert IndexOf(d, ':') == 4 by { assert forall i :: 0 <= i < 4 ==> d[i] == "data"[i]; FirstAt(d, ':', 4); }
  }

  lemma FirstAt(s: string, c: char, k: nat)
    requires k < |s| && s[k] == c && forall i :: 0 <= i < k ==> s[i] != c
    ensures IndexOf(s, c) == k
  {
    if k > 0 {
      FirstAt(s[1..], c, k - 1);
    }
  }

  lemma ReadDataLine(line: string, rest: string, p: Parser)
    requires NoBreak(line)
    ensures Interpret(Lines(DataLine(line) + rest, []), p) ==
            Interpret(Lines(rest, []), p.(data := p.data + line + "\n"))
  {
    assert DataLine(line) + rest == ("data: " + line) + "\n" + rest;
    ReadLine("data: " + line, rest, p);
    NamedField(p, line);
  }

  lemma JoinStep(data: string, lines: seq<string>)
    requires |lines| > 1
    ensures (data + lines[0] + "\n") + Join(lines[1..], '\n') + "\n" == data + Join(lines, '\n') + "\n"
  {
  }

  /** The data lines of an event fill the data buffer with the lines, each ended by a newline. */
  lemma {:induction false} ReadData(lines: seq<string>, rest: string, p: Parser)
    requires lines != [] && forall i :: 0 <= i < |lines| ==> NoBreak(lines[i])
    ensures Interpret(Lines(DataLines(lines) + rest, []), p)
         == Interpret(Lines(rest, []), p.(data := p.data + Join(lines, '\n') + "\n"))
    decreases |lines|
  {
    var tail := DataLines(lines[1..]) + rest;
    assert DataLines(lines) + rest == DataLine(lines[0]) + tail;
    ReadDataLine(lines[0], tail, p);
    if |lines| == 1 {
      assert tail == rest;
    } else {
      ReadData(lines[1..], rest, p.(data := p.data + lines[0] + "\n"));
      JoinStep(p.data, lines);
    }
  }

  function Named(name: string): string {
    if name == "" then "message" else name
  }

  lemma ReadEvent(name: string, data: string, rest: string, events: seq<Event>)
    requires NoBreak(name) && '\r' !in data
    ensures Interpret(Lines(EventText(name, data) + rest, []), Parser("", "", events))
         == Interpret(Lines(rest, []), Parser("", "", events + [Event(Named(name), data)]))
  {
    var p, lines := Parser("", "", events), Split(data, '\n');
    var tail := DataLines(lines) + ("\n" + rest);
    assert EventText(name, data) + rest == NameLine(name) + tail;
    ReadName(name, tail, events);
    JoinSplit(data, '\n');
    PiecesOf(data, '\n');
    ReadData(lines, "\n" + rest, Parser(name, "", events));
    assert "" + data == data;
    ReadEnd(name, data, rest, events);
  }

  lemma ReadName(name: string, rest: string, events: seq<Event>)
    requires NoBreak(name)
    ensures Interpret(Lines(NameLine(name) + rest, []), Parser("", "", events)) ==
            Interpret(Lines(rest, []), Parser(name, "", events))
  {
    if name == "" {
      assert NameLine(name) + rest == rest;
    } else {
      assert NameLine(name) + rest == ("event: " + name) + "\n" + rest;
      ReadLine("event: " + name, rest, Parser("", "", events));
      NamedField(Parser("", "", events), name);
    }
  }

  /** The empty line after an event dispatches it. */
  lemma ReadEnd(name: string, data: string, rest: string, events: seq<Event>)
    ensures Interpret(Lines("\n" + rest, []), Parser(name, data + "\n", events))
         == Interpret(Lines(rest, []), Parser("", "", events + [Event(Named(name), data)]))
  {
    assert "\n" + rest == "" + "\n" + rest;
    ReadLine("", rest, Parser(name, data + "\n", events));
    assert (data + "\n")[..|data|] == data;
  }

  /** The pieces of a text contain only characters of the text. */
  lemma {:induction false} PiecesOf<T>(s: seq<T>, sep: T)
    ensures forall i, x :: 0 <= i < |Split(s, sep)| && x in Split(s, sep)[i] ==> x in s
  {
    if s != [] {
      PiecesOf(s[1..], sep);
      var rest := Split(s[1..], sep);
      assert s == [s[0]] + s[1..];
      forall i, x | 0 <= i < |Split(s, sep)| && x in Split(s, sep)[i] ensures x in s {
        assert s[0] == sep ==> i > 0 && x in rest[i - 1];
        assert s[0] != sep ==> x == s[0] || x in rest[i];
      }
    }
  }

  lemma ReadComment(data: string, rest: string, events: seq<Event>)
    requires IsComment(data) && NoBreak(data)
    ensures Interpret(Lines(data + "\n\n" + rest, []), Parser("", "", events))
         == Interpret(Lines(rest, []), Parser("", "", events))
  {
    var p := Parser("", "", events);
    assert data + "\n\n" + rest == data + "\n" + ("" + "\n" + rest);
    ReadLine(data, "" + "\n" + rest, p);
    ReadLine("", rest, p);
  }

  /** What a stream may carry: names and comments on one line, data without carriage returns. */
  predicate Sendable(ev: Event) {
    if IsComment(ev.data) then NoBreak(ev.data) else NoBreak(ev.name) && '\r' !in ev.data
  }

  function DeliveredOne(ev: Event): seq<Event> {
    if IsComment(ev.data) then [] else [Event(Named(ev.name), ev.data)]
  }

  function Delivered(evs: seq<Event>): seq<Event> {
    if evs == [] then [] else DeliveredOne(evs[0]) + Delivered(evs[1..])
  }

  lemma ReadOne(ev: Event, rest: string, events: seq<Event>)
    requires Sendable(ev)
    ensures Interpret(Lines(Written(ev) + rest, []), Parser("", "", events))
         == Interpret(Lines(rest, []), Parser("", "", events + DeliveredOne(ev)))
  {
    if IsComment(ev.data) {
      ReadComment(ev.data, rest, events);
      assert events + [] == events;
    } else {
      ReadEvent(ev.name, ev.data, rest, events);
    }
  }

  lemma ReadNext(ev: Event, rest: string, events: seq<Event>, later: seq<Event>)
    requires Sendable(ev)
    requires Interpret(Lines(rest, []), Parser("", "", events + DeliveredOne(ev))).events
          == events + DeliveredOne(ev) + later
    ensures Interpret(Lines(Written(ev) + rest, []), Parser("", "", events)).events
         == events + (DeliveredOne(ev) + later)
  {
    ReadOne(ev, rest, events);
  }

  lemma {:induction false} ReadStream(evs: seq<Event>, events: seq<Event>)
    requires forall i :: 0 <= i < |evs| ==> Sendable(evs[i])
    ensures Interpret(Lines(StreamOf(evs), []), Parser("", "", events)).events == events + Delivered(evs)
    decreases |evs|
  {
    if evs != [] {
      ReadStream(evs[1..], events + DeliveredOne(evs[0]));
      ReadNext(evs[0], StreamOf(evs[1..]), events, Delivered(evs[1..]));
    }
  }

  /** Any list of events, interleaved with heartbeats, is read back: every event once, in order, and nothing else. */
  lemma StreamRoundTrip(evs: seq<Event>)
    requires forall i :: 0 <= i < |evs| ==> Sendable(evs[i])
    ensures Parse(StreamOf(evs)) == Delivered(evs)
  {
    ReadStream(evs, []);
    if evs != [] {
      NoByteOrderMark(evs[0]);
    }
    ReadFromStart(StreamOf(evs), Delivered(evs));
  }

  lemma ReadFromStart(s: string, evs: seq<Event>)
    requires Interpret(Lines(s, []), Parser("", "", [])).events == [] + evs
    requires s == "" || s[0] != BOM
    ensures Parse(s) == evs
  {
    assert [] + evs == evs;
  }

  lemma NoByteOrderMark(ev: Event)
    ensures Written(ev) != "" && Written(ev)[0] != BOM
  {
    if !IsComment(ev.data) && ev.name == "" {
      var lines := Split(ev.data, '\n');
      assert DataLines(lines)[0] == 'd';
    }
  }

  // ---------------------------------------------------------------- exactly these events survive

  ghost predicate CleanParser(p: Parser) {
    && NoBreak(p.typ) && '\r' !in p.data
    && forall i :: 0 <= i < |p.events| ==> NoBreak(p.events[i].name) && '\r' !in p.events[i].data
  }

  lemma {:induction false} LinesHaveNoBreaks(s: string, cur: string)
    requires NoBreak(cur)
    ensures forall i :: 0 <= i < |Lines(s, cur)| ==> NoBreak(Lines(s, cur)[i])
    decreases |s|
  {
    if s != [] {
      if s[0] == '\n' {
        LinesHaveNoBreaks(s[1..], []);
      } else if s[0] == '\r' {
        LinesHaveNoBreaks(if |s| > 1 && s[1] == '\n' then s[2..] else s[1..], []);
      } else {
        LinesHaveNoBreaks(s[1..], cur + [s[0]]);
      }
    }
  }

  lemma {:induction false} InterpretStaysClean(lines: seq<string>, p: Parser)
    requires CleanParser(p) && forall i :: 0 <= i < |lines| ==> NoBreak(lines[i])
    ensures CleanParser(Interpret(lines, p))
    decreases |lines|
  {
    if lines != [] {
      assert NoBreak(lines[0]);
      InterpretStaysClean(lines[1..], Line(p, lines[0]));
    }
  }

  /** An event written on its own is read back as itself exactly when it has no line break out of place. */
  lemma EventSurvivesIffSendable(name: string, data: string)
    ensures Parse(EventText(name, data)) == [Event(Named(name), data)] <==> NoBreak(name) && '\r' !in data
  {
    var s := EventText(name, data);
    if NoBreak(name) && '\r' !in data {
      ReadEvent(name, data, [], []);
      assert s + [] == s;
      assert name == "" ==> DataLines(Split(data, '\n'))[0] == 'd';
    }
    var body := if s != "" && s[0] == BOM then s[1..] else s;
    LinesHaveNoBreaks(body, []);
    InterpretStaysClean(Lines(body, []), IDLE);
    if Parse(s) == [Event(Named(name), data)] {
      assert NoBreak(Parse(s)[0].name) && '\r' !in Parse(s)[0].data;
    }
  }
}
