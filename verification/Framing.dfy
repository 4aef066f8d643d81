/**
 Length-prefixed frames over a byte stream: the writer, the reader, and why the second
 undoes the first for every split into writes, every read size and every short read.
 */
module Framing {
  import opened Text

  type Bytes = seq<Byte>

  const MAX_FRAME: nat := 0x400_0000
  const WORD: nat := 0x1_0000_0000
  const TERMINATOR: Bytes := [0, 0, 0, 0]

  // ---------------------------------------------------------------- the wire format

  /** The last `width` bytes of n, most significant first. */
  function BigEndian(n: nat, width: nat): (h: Bytes)
    ensures |h| == width
  {
    if width == 0 then [] else BigEndian(n / 0x100, width - 1) + [n % 0x100]
  }

  function HeaderValue(h: Bytes): nat {
    if h == [] then 0 else HeaderValue(h[..|h| - 1]) * 0x100 + h[|h| - 1]
  }

  /** A length as the writer stores it: four bytes, so cut to 32 bits. */
  function Header(n: nat): (h: Bytes)
    ensures |h| == 4
  {
    BigEndian(n, 4)
  }

  lemma HeaderRoundTrip(n: nat)
    ensures HeaderValue(Header(n)) == n % WORD
  {
    var a, b, c := n / 0x100, n / 0x100 / 0x100, n / 0x100 / 0x100 / 0x100;
    var h1: Bytes, h2: Bytes := [c % 0x100], [c % 0x100, b % 0x100];
    var h3: Bytes, h4: Bytes := h2 + [a % 0x100], h2 + [a % 0x100, n % 0x100];
    assert BigEndian(c, 1) == h1 && BigEndian(b, 2) == h2 && BigEndian(a, 3) == h3 && Header(n) == h4;
    assert h4[..3] == h3 && h3[..2] == h2 && h2[..1] == h1 && h1[..0] == [];
    assert HeaderValue(h1) == c % 0x100;
    assert HeaderValue(h2) == c % 0x100 * 0x100 + b % 0x100;
    assert HeaderValue(h3) == (c % 0x100 * 0x100 + b % 0x100) * 0x100 + a % 0x100;
    Digits(n);
  }

  /** The most significant byte comes first. */
  lemma HeaderIsBigEndian(n: nat)
    ensures Header(n) == [n / 0x100_0000 % 0x100, n / 0x1_0000 % 0x100, n / 0x100 % 0x100, n % 0x100]
  {
    var a, b, c := n / 0x100, n / 0x100 / 0x100, n / 0x100 / 0x100 / 0x100;
    assert b == n / 0x1_0000 && c == n / 0x100_0000;
    var h1: Bytes, h2: Bytes := [c % 0x100], [c % 0x100, b % 0x100];
    assert BigEndian(c, 1) == h1 && BigEndian(b, 2) == h2 && BigEndian(a, 3) == h2 + [a % 0x100];
  }

  lemma Digits(n: nat)
    ensures var a, b, c := n / 0x100, n / 0x100 / 0x100, n / 0x100 / 0x100 / 0x100;
            ((c % 0x100 * 0x100 + b % 0x100) * 0x100 + a % 0x100) * 0x100 + n % 0x100 == n % WORD
  {
  }

  /** What one Write puts on the wire. */
  function Frame(p: Bytes): Bytes {
    if p == [] then [] else Header(|p|) + p
  }

  function Frames(ws: seq<Bytes>): Bytes {
    if ws == [] then [] else Frame(ws[0]) + Frames(ws[1..])
  }

  /** How a stream of frames reads: whole, up to the terminator and what follows it, or broken off. */
  datatype Deframed = Whole(payload: Bytes, rest: Bytes) | Broken(payload: Bytes)

  ghost function Prepend(p: Bytes, d: Deframed): Deframed {
    match d
    case Whole(payload, rest) => Whole(p + payload, rest)
    case Broken(payload) => Broken(p + payload)
  }

  /** The meaning of s for a reader that is inside a frame with `remaining` payload bytes left. */
  ghost function Deframe(remaining: nat, s: Bytes): Deframed
    decreases |s|
  {
    if remaining > 0 then
      if |s| < remaining then Broken(s)
      else Prepend(s[..remaining], Deframe(0, s[remaining..]))
    else if |s| < 4 then Broken([])
    else
      var n := HeaderValue(s[..4]);
      if n == 0 then Whole([], s[4..])
      else if n > MAX_FRAME then Broken([])
      else Deframe(n, s[4..])
  }

  // ---------------------------------------------------------------- round trip

  lemma FrameReads(p: Bytes, rest: Bytes)
    requires |p| <= MAX_FRAME
    ensures Deframe(0, Frame(p) + rest) == Prepend(p, Deframe(0, rest))
  {
    if p == [] {
      assert Frame(p) + rest == rest;
      assert Prepend([], Deframe(0, rest)) == Deframe(0, rest);
    } else {
      FrameParts(p, rest);
      HeaderRoundTrip(|p|);
      ReadHeaderOf(Frame(p) + rest, |p|);
      ReadPayloadOf(p, rest);
    }
  }

  lemma ReadHeaderOf(s: Bytes, n: nat)
    requires |s| >= 4 && HeaderValue(s[..4]) == n && 0 < n <= MAX_FRAME
    ensures Deframe(0, s) == Deframe(n, s[4..])
  {
  }

  lemma ReadPayloadOf(p: Bytes, rest: Bytes)
    requires p != []
    ensures Deframe(|p|, p + rest) == Prepend(p, Deframe(0, rest))
  {
    assert (p + rest)[..|p|] == p && (p + rest)[|p|..] == rest;
  }

  lemma FrameParts(p: Bytes, rest: Bytes)
    requires p != []
    ensures var s := Frame(p) + rest; |s| >= 4 && s[..4] == Header(|p|) && s[4..] == p + rest
  {
  }

  lemma TerminatorValue()
    ensures HeaderValue(TERMINATOR) == 0
  {
    assert TERMINATOR[..3] == [0, 0, 0] && [0, 0, 0][..2] == [0, 0] && [0, 0][..1] == [0];
    assert HeaderValue([0]) == 0;
    assert HeaderValue([0, 0]) == 0;
  }

  ghost predicate FitFrames(ws: seq<Bytes>) {
    forall i :: 0 <= i < |ws| ==> |ws[i]| <= MAX_FRAME
  }

  /** Every split of a stream into writes reads back as the stream, and stops right after the terminator. */
  lemma {:induction false} RoundTrip(ws: seq<Bytes>, rest: Bytes)
    requires FitFrames(ws)
    ensures Deframe(0, Frames(ws) + TERMINATOR + rest) == Whole(Concat(ws), rest)
  {
    if ws == [] {
      var s := Frames(ws) + TERMINATOR + rest;
      assert s[..4] == TERMINATOR && s[4..] == rest;
      TerminatorValue();
    } else {
      RoundTrip(ws[1..], rest);
      FrameReads(ws[0], Frames(ws[1..]) + TERMINATOR + rest);
      assert Frames(ws) + TERMINATOR + rest == Frame(ws[0]) + (Frames(ws[1..]) + TERMINATOR + rest);
    }
  }

  /** A stream cut anywhere before its end never reads as whole: only as some of the bytes and an error. */
  lemma {:induction false} CutIsNoticed(ws: seq<Bytes>, k: nat)
    requires FitFrames(ws) && k < |Frames(ws) + TERMINATOR|
    ensures var d := Deframe(0, (Frames(ws) + TERMINATOR)[..k]); d.Broken? && d.payload <= Concat(ws)
  {
    var all := Frames(ws) + TERMINATOR;
    if ws == [] {
      assert all == TERMINATOR;
    } else {
      var f, tail := Frame(ws[0]), Frames(ws[1..]) + TERMINATOR;
      assert all == f + tail;
      if k >= |f| {
        assert all[..k] == f + tail[..k - |f|];
        CutIsNoticed(ws[1..], k - |f|);
        FrameReads(ws[0], tail[..k - |f|]);
      } else {
        assert all[..k] == f[..k];
        CutFrame(ws[0], k);
      }
    }
  }

  lemma CutFrame(p: Bytes, k: nat)
    requires |p| <= MAX_FRAME && k < |Frame(p)|
    ensures var d := Deframe(0, Frame(p)[..k]); d.Broken? && d.payload <= p
  {
    if k >= 4 {
      HeaderRoundTrip(|p|);
      assert Frame(p)[..k][..4] == Header(|p|) && Frame(p)[..k][4..] == p[..k - 4];
    }
  }

  lemma {:induction false} PayloadBound(remaining: nat, s: Bytes)
    ensures |Deframe(remaining, s).payload| <= |s|
    ensures |s| > remaining ==> |Deframe(remaining, s).payload| <= if remaining > |s| - 4 then remaining else |s| - 4
    decreases |s|, remaining
  {
    if remaining > 0 {
      if |s| >= remaining {
        PayloadBound(0, s[remaining..]);
      }
    } else if |s| >= 4 {
      var n := HeaderValue(s[..4]);
      if 0 < n <= MAX_FRAME {
        PayloadBound(n, s[4..]);
      }
    }
  }

  /** A write reads back as itself before anything else exactly when it fits a frame. */
  lemma FrameReadsIffItFits(p: Bytes)
    ensures |p| <= 64 * 1024 * 1024 <==> forall rest :: Deframe(0, Frame(p) + rest) == Prepend(p, Deframe(0, rest))
  {
    if |p| <= MAX_FRAME {
      forall rest ensures Deframe(0, Frame(p) + rest) == Prepend(p, Deframe(0, rest)) {
        FrameReads(p, rest);
      }
    } else {
      var s := Frame(p) + [];
      var n := |p| % WORD;
      HeaderRoundTrip(|p|);
      assert s[..4] == Header(|p|) && s[4..] == p;
      if 0 < n <= MAX_FRAME {
        PayloadBound(n, p);
      }
      assert |Deframe(0, s).payload| < |p|;
      assert |Prepend(p, Deframe(0, [])).payload| >= |p|;
    }
  }

  // ---------------------------------------------------------------- the writer

  lemma CutFrameAt(p: Bytes, k: nat)
    requires p != [] && k < |Frame(p)|
    ensures k < 4 ==> Frame(p)[..k] == Header(|p|)[..k]
    ensures k >= 4 ==> Frame(p)[..k] == Header(|p|) + p[..k - 4]
  {
  }

  class FrameWriter {
    const w: Sink<Byte>

    constructor (w: Sink<Byte>)
      ensures this.w == w
    {
      this.w := w;
    }

    /** One frame, or as much of it as a breaking connection takes. */
    method Write(p: Bytes) returns (n: nat, ok: bool)
      modifies w
      ensures ok == (|Frame(p)| <= old(w.room)) && n == if ok then |p| else 0
      ensures w.data == old(w.data) + if ok then Frame(p) else Frame(p)[..old(w.room)]
    {
      if |p| == 0 { return 0, true; }
      var h := Header(|p|);
      ok := w.Write(h);
      ghost var k := old(w.room);
      if k < |Frame(p)| { CutFrameAt(p, k); }
      if !ok { return 0, false; }
      ok := w.Write(p);
      if !ok {
        assert w.data == old(w.data) + (h + p[..k - 4]);
        return 0, false;
      }
      n := |p|;
    }

    method Close() returns (ok: bool)
      modifies w
      ensures ok == (|TERMINATOR| <= old(w.room))
      ensures w.data == old(w.data) + if ok then TERMINATOR else TERMINATOR[..old(w.room)]
    {
      ok := w.Write([0, 0, 0, 0]);
    }
  }

  // ---------------------------------------------------------------- the reader

  /**
   A byte source made of what a decoder has already taken off the connection and the
   connection itself. A read may be short, and up to `stalls` reads may return nothing. Behind
   the last byte there is end-of-file, or if the connection `fails` another error.
   */
  class Stream {
    var buffered: Bytes
    var conn: Bytes
    var stalls: nat
    const fails: bool

    constructor (buffered: Bytes, conn: Bytes, stalls: nat, fails: bool)
      ensures Data() == buffered + conn && this.fails == fails
    {
      this.buffered, this.conn, this.stalls, this.fails := buffered, conn, stalls, fails;
    }

    ghost function Data(): Bytes
      reads this
    {
      buffered + conn
    }

    /** Bounds the reads still to come. */
    ghost function Left(): nat
      reads this
    {
      |Data()| + stalls
    }

    /** `end` says that the error or end-of-file behind the last byte has come with the chunk. */
    method Read(max: nat) returns (chunk: Bytes, end: bool)
      modifies this
      ensures old(Data()) == chunk + Data() && |chunk| <= max
      ensures end ==> Data() == []
      ensures stalls <= old(stalls)
      ensures chunk == [] && !end && max > 0 ==> stalls < old(stalls)
    {
      var least := if max > 0 && stalls == 0 then 1 else 0;
      end := false;
      if buffered != [] {
        var n: nat :| least <= n <= max && n <= |buffered|;
        chunk, buffered := buffered[..n], buffered[n..];
      } else if conn != [] {
        var n: nat :| least <= n <= max && n <= |conn|;
        chunk, conn := conn[..n], conn[n..];
        end :| end ==> conn == [];
      } else {
        chunk := [];
        end :| stalls == 0 ==> end;
      }
      if chunk == [] && !end && max > 0 {
        stalls := stalls - 1;
      }
    }

    /** Reads exactly `want` bytes, or all there are if they are fewer. */
    method ReadFull(want: nat) returns (got: Bytes, ok: bool)
      modifies this
      ensures old(Data()) == got + Data() && stalls <= old(stalls)
      ensures ok <==> |old(Data())| >= want
      ensures ok ==> |got| == want
      ensures !ok ==> Data() == []
    {
      got := [];
      var end := false;
      while |got| < want && !end
        invariant old(Data()) == got + Data() && |got| <= want && stalls <= old(stalls)
        invariant end ==> Data() == []
        decreases if end then 0 else 1 + Left()
      {
        var chunk;
        chunk, end := Read(want - |got|);
        got := got + chunk;
      }
      ok := |got| == want;
    }
  }

  datatype Status = Fine | Eof | HeaderCut | FrameTooLarge | PayloadCut

  /** How many bytes a read into a buffer of len bytes asks for: the comparison is on 32 bits. */
  function ToRead(len: nat, remaining: nat): nat {
    if len % WORD > remaining then remaining else len
  }

  /** A read stays inside its frame for every buffer shorter than 2^32 bytes, and in general exactly then. */
  lemma ToReadStaysInside(len: nat, remaining: nat)
    ensures ToRead(len, remaining) <= remaining <==> len <= remaining || len % WORD > remaining
    ensures len < WORD ==> ToRead(len, remaining) <= remaining
    ensures remaining < WORD ==> ToRead(WORD, remaining) > remaining
  {
  }

  /** A read into len bytes, with `frame` bytes of payload ahead, asks for no more than those. */
  predicate StaysInside(len: nat, frame: nat) {
    frame == 0 || ToRead(len, frame) <= frame
  }

  class FrameReader {
    const r: Stream
    var remaining: nat
    var done: bool

    constructor (r: Stream)
      ensures this.r == r && remaining == 0 && !done
    {
      this.r, remaining, done := r, 0, false;
    }

    /** What is still to be read. */
    ghost function Pending(): Deframed
      reads this, r
    {
      if done then Whole([], r.Data()) else Deframe(remaining, r.Data())
    }

    /** The payload bytes left in the frame that the next read is in, or opens. */
    ghost function FrameAhead(): nat
      reads this, r
    {
      if done then 0
      else if remaining > 0 then remaining
      else if |r.Data()| < 4 || HeaderValue(r.Data()[..4]) > MAX_FRAME then 0
      else HeaderValue(r.Data()[..4])
    }

    ghost predicate Valid()
      reads this
    {
      remaining < WORD
    }

    /** Reads the next frame header, between two frames. */
    method ReadHeader() returns (status: Status)
      requires Valid() && remaining == 0 && !done
      modifies this, r
      ensures Valid() && r.stalls <= old(r.stalls)
      ensures status.Fine? ==> remaining > 0 && !done && Pending() == old(Pending()) && |r.Data()| < |old(r.Data())|
      ensures status.Fine? ==> remaining == old(FrameAhead())
      ensures status.Eof? ==> done && old(Pending()) == Pending() == Whole([], r.Data()) && |r.Data()| < |old(r.Data())|
      ensures !status.Fine? && !status.Eof? ==> old(Pending()) == Broken([]) && |r.Data()| <= |old(r.Data())|
    {
      ghost var before := r.Data();
      var header, ok := r.ReadFull(4);
      if !ok { return HeaderCut; }
      assert header == before[..4] && r.Data() == before[4..];
      var n := HeaderValue(header);
      if n == 0 {
        done := true;
        return Eof;
      }
      if n > MAX_FRAME { return FrameTooLarge; }
      remaining := n;
      status := Fine;
    }

    method Read(len: nat) returns (chunk: Bytes, status: Status)
      requires Valid()
      modifies this, r
      ensures Valid() && |chunk| <= len
      ensures StaysInside(len, old(FrameAhead())) ==> Took(old(Pending()), chunk, status, Pending(), r.Data())
      ensures status.Fine? && len > 0 ==> r.Left() < old(r.Left())
      ensures status.Eof? ==> done
    {
      if done { return [], Eof; }
      if remaining == 0 {
        status := ReadHeader();
        if !status.Fine? { return [], status; }
      }
      chunk, status := ReadPayload(len);
    }

    /** Reads some of the payload of the current frame. */
    method ReadPayload(len: nat) returns (chunk: Bytes, status: Status)
      requires Valid() && remaining > 0 && !done
      modifies this, r
      ensures Valid() && !done && !status.Eof?
      ensures |chunk| <= len && |chunk| <= ToRead(len, old(remaining))
      ensures old(r.Data()) == chunk + r.Data() && remaining == Minus32(old(remaining), |chunk|)
      ensures StaysInside(len, old(remaining)) ==> Took(old(Pending()), chunk, status, Pending(), r.Data())
      ensures status.Fine? && len > 0 ==> r.Left() < old(r.Left())
    {
      ghost var before, data := remaining, r.Data();
      var want := ToRead(len, remaining);
      Asks(len, remaining);
      var cut;
      chunk, cut := r.Read(want);
      status := if cut then PayloadCut else Fine;
      remaining := Minus32(remaining, |chunk|);
      if StaysInside(len, before) {
        assert remaining == before - |chunk|;
        PayloadTook(before, data, chunk, r.Data(), status);
      }
    }
  }

  /** A read asks for something, and never for more than the buffer holds. */
  lemma Asks(len: nat, remaining: nat)
    requires remaining > 0
    ensures ToRead(len, remaining) <= len && (len > 0 ==> ToRead(len, remaining) > 0)
  {
  }

  /** What a read of `chunk` off the stream chunk + rest does is right for a reader with `remaining` bytes to go. */
  ghost predicate ReadIsRight(remaining: nat, chunk: Bytes, rest: Bytes) {
    Took(Deframe(remaining, chunk + rest), chunk, Fine, Deframe(Minus32(remaining, |chunk|), rest), rest)
  }

  /**
   Every read into len bytes is right, whatever the stream and however short, exactly when it stays inside its frame.
   */
  lemma ReadsRightIffInside(len: nat, remaining: nat)
    requires 0 < remaining < WORD
    ensures StaysInside(len, remaining) <==>
            forall chunk, rest :: |chunk| <= ToRead(len, remaining) ==> ReadIsRight(remaining, chunk, rest)
  {
    if StaysInside(len, remaining) {
      forall chunk, rest | |chunk| <= ToRead(len, remaining) ensures ReadIsRight(remaining, chunk, rest) {
        PayloadTook(remaining, chunk + rest, chunk, rest, Fine);
      }
    } else {
      var p: Bytes := seq(remaining, _ => 0);
      ReadPastEnd(p);
      assert |p + [0]| <= ToRead(len, remaining);
      assert !ReadIsRight(remaining, p + [0], [0, 0, 0]);
    }
  }

  /** A read that takes a byte of the terminator for payload is wrong. */
  lemma ReadPastEnd(p: Bytes)
    requires p != []
    ensures !ReadIsRight(|p|, p + [0], [0, 0, 0])
  {
    var s := p + [0] + [0, 0, 0];
    assert s == p + TERMINATOR;
    ReadPayloadOf(p, TERMINATOR);
    TerminatorValue();
    assert TERMINATOR[..4] == TERMINATOR && TERMINATOR[4..] == [];
    assert Deframe(0, TERMINATOR) == Whole([], []);
    assert Deframe(|p|, s) == Whole(p + [], []);
  }

  lemma PayloadTook(remaining: nat, data: Bytes, chunk: Bytes, rest: Bytes, status: Status)
    requires data == chunk + rest && |chunk| <= remaining && remaining > 0
    requires status.Fine? || (status.PayloadCut? && rest == [])
    ensures Took(Deframe(remaining, data), chunk, status, Deframe(remaining - |chunk|, rest), rest)
  {
    ReadSome(remaining, data, chunk, rest);
  }

  /** Subtraction of 32-bit words. */
  function Minus32(a: nat, b: nat): (r: nat)
    ensures r < WORD
    ensures b <= a < WORD ==> r == a - b
  {
    (a + WORD - b % WORD) % WORD
  }

  /** What one read returned, against what was pending before and after it. */
  ghost predicate Took(before: Deframed, chunk: Bytes, status: Status, after: Deframed, data: Bytes) {
    match status
    case Fine => before == Prepend(chunk, after)
    case Eof => chunk == [] && before == after == Whole([], data)
    case _ => before == Broken(chunk)
  }

  /** Taking some bytes of a payload leaves the rest of it. */
  lemma ReadSome(remaining: nat, data: Bytes, chunk: Bytes, rest: Bytes)
    requires data == chunk + rest && |chunk| <= remaining && remaining > 0
    ensures Deframe(remaining, data) == Prepend(chunk, Deframe(remaining - |chunk|, rest))
    ensures rest == [] ==> Deframe(remaining, data) == Broken(chunk)
  {
    if |data| >= remaining {
      assert data[..remaining] == chunk + rest[..remaining - |chunk|];
      assert data[remaining..] == rest[remaining - |chunk|..];
      if |chunk| == remaining {
        assert rest[0..] == rest && rest[..0] == [];
      }
    }
  }

  lemma PrependTwice(a: Bytes, b: Bytes, d: Deframed)
    ensures Prepend(a, Prepend(b, d)) == Prepend(a + b, d)
  {
    match d
    case Whole(p, _) => assert a + (b + p) == (a + b) + p;
    case Broken(p) => assert a + (b + p) == (a + b) + p;
  }

  /** Any sequence of reads: together they return the payload in order, end-of-file only at its end. */
  method ReadMany(fr: FrameReader, sizes: seq<nat>) returns (got: Bytes, status: Status)
    requires fr.Valid() && forall i :: 0 <= i < |sizes| ==> sizes[i] < WORD
    modifies fr, fr.r
    ensures fr.Valid()
    ensures status.Fine? ==> old(fr.Pending()) == Prepend(got, fr.Pending())
    ensures status.Eof? ==> old(fr.Pending()) == Whole(got, fr.r.Data())
    ensures !status.Fine? && !status.Eof? ==> old(fr.Pending()) == Broken(got)
  {
    got, status := [], Fine;
    assert Prepend([], fr.Pending()) == fr.Pending();
    for i := 0 to |sizes|
      invariant fr.Valid() && status.Fine? && old(fr.Pending()) == Prepend(got, fr.Pending())
    {
      var chunk;
      ghost var sofar, before := got, fr.Pending();
      ToReadStaysInside(sizes[i], fr.FrameAhead());
      chunk, status := fr.Read(sizes[i]);
      got := got + chunk;
      PrependTwice(sofar, chunk, fr.Pending());
      if !status.Fine? {
        assert sofar + [] == sofar;
        return;
      }
    }
  }
}
