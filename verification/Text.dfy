/** Bytes, and splitting and joining of text, shared by the other modules. */
module Text {

  type Byte = b: int | 0 <= b < 0x100

  datatype Option<+T> = None | Some(value: T)

  /** The pieces of `s` between occurrences of `sep`: one piece more than there are separators. */
  function Split<T(==)>(s: seq<T>, sep: T): (r: seq<seq<T>>)
    ensures |r| > 0
  {
    if s == [] then [[]]
    else
      var rest := Split(s[1..], sep);
      if s[0] == sep then [[]] + rest else [[s[0]] + rest[0]] + rest[1..]
  }

  function Join<T>(pieces: seq<seq<T>>, sep: T): (r: seq<T>)
  {
    if |pieces| == 0 then []
    else if |pieces| == 1 then pieces[0]
    else pieces[0] + [sep] + Join(pieces[1..], sep)
  }

  function Concat<T>(pieces: seq<seq<T>>): (r: seq<T>)
  {
    if |pieces| == 0 then [] else pieces[0] + Concat(pieces[1..])
  }

  /** No piece contains the separator, and joining the pieces gives the text back. */
  lemma {:induction false} JoinSplit<T>(s: seq<T>, sep: T)
    ensures Join(Split(s, sep), sep) == s
    ensures forall i :: 0 <= i < |Split(s, sep)| ==> sep !in Split(s, sep)[i]
  {
    if s != [] {
      var rest := Split(s[1..], sep);
      JoinSplit(s[1..], sep);
      if s[0] == sep {
        assert ([[]] + rest)[1..] == rest;
        assert s == [s[0]] + s[1..];
      } else {
        assert ([[s[0]] + rest[0]] + rest[1..])[1..] == rest[1..];
        assert s == [s[0]] + s[1..];
      }
    }
  }

  /** A text without the separator followed by one: the first piece is that text. */
  lemma {:induction false} SplitFirst<T>(head: seq<T>, sep: T, tail: seq<T>)
    requires sep !in head
    ensures Split(head + [sep] + tail, sep) == [head] + Split(tail, sep)
    ensures Split(head, sep) == [head]
  {
    var s := head + [sep] + tail;
    if head == [] {
      assert s[1..] == tail;
    } else {
      SplitFirst(head[1..], sep, tail);
      assert s[1..] == head[1..] + [sep] + tail;
      assert [head[0]] + head[1..] == head;
    }
  }

  /** Splitting at a separator in the middle splits both sides. */
  lemma {:induction false} SplitMiddle<T>(a: seq<T>, sep: T, b: seq<T>)
    ensures Split(a + [sep] + b, sep) == Split(a, sep) + Split(b, sep)
  {
    var s := a + [sep] + b;
    if a == [] {
      assert s[1..] == b;
    } else {
      SplitMiddle(a[1..], sep, b);
      assert s[1..] == a[1..] + [sep] + b && s[0] == a[0];
      SplitHead(a[0], sep, Split(a[1..], sep), Split(b, sep));
    }
  }

  lemma SplitHead<T>(x: T, sep: T, rest: seq<seq<T>>, more: seq<seq<T>>)
    requires rest != []
    ensures [[]] + (rest + more) == ([[]] + rest) + more
    ensures [[x] + (rest + more)[0]] + (rest + more)[1..] == ([[x] + rest[0]] + rest[1..]) + more
  {
  }

  /** Splitting undoes joining when no piece contains the separator. */
  lemma {:induction false} SplitJoin<T>(pieces: seq<seq<T>>, sep: T)
    requires pieces != []
    requires forall i :: 0 <= i < |pieces| ==> sep !in pieces[i]
    ensures Split(Join(pieces, sep), sep) == pieces
  {
    if |pieces| == 1 {
      SplitFirst(pieces[0], sep, []);
    } else {
      SplitJoin(pieces[1..], sep);
      SplitFirst(pieces[0], sep, Join(pieces[1..], sep));
    }
  }

  /** A connection that accepts `room` more items before it breaks. */
  class Sink<T> {
    var data: seq<T>
    var room: nat

    constructor (room: nat)
      ensures data == [] && this.room == room
    {
      data, this.room := [], room;
    }

    method Write(p: seq<T>) returns (ok: bool)
      modifies this
      ensures ok == (|p| <= old(room))
      ensures ok ==> data == old(data) + p && room == old(room) - |p|
      ensures !ok ==> data == old(data) + p[..old(room)] && room == 0
    {
      ok := |p| <= room;
      if ok {
        data, room := data + p, room - |p|;
      } else {
        data, room := data + p[..room], 0;
      }
    }
  }
}
