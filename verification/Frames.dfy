/** Splitting a byte stream into frames: a head of fixed size, which declares the size of the body
    that follows it. */
module Frames {
  type Byte = bv8

  /** What a listener's protocol fixes: the size of the head, the body size a head declares, and the
      size of the buffer that frames are received into. */
  datatype Protocol = Protocol(head: nat, body: seq<Byte> -> nat, room: nat)

  predicate Usable(p: Protocol) { 0 < p.head <= p.room }

  function Length(p: Protocol, s: seq<Byte>): nat
    requires p.head <= |s|
  {
    p.head + p.body(s[..p.head])
  }

  predicate Complete(p: Protocol, s: seq<Byte>) { p.head <= |s| && Length(p, s) <= |s| }

  /** The frames of the stream, and the unfinished one at its end. */
  function Split(p: Protocol, s: seq<Byte>): seq<seq<Byte>>
    requires p.head > 0
  {
    if Complete(p, s) then [s[..Length(p, s)]] + Split(p, s[Length(p, s)..]) else []
  }

  function Rest(p: Protocol, s: seq<Byte>): seq<Byte>
    requires p.head > 0
  {
    if Complete(p, s) then Rest(p, s[Length(p, s)..]) else s
  }

  /** Every frame the stream holds or begins is small enough for the buffer. */
  predicate Fits(p: Protocol, s: seq<Byte>)
    requires p.head > 0
  {
    p.head <= |s| ==> Length(p, s) <= p.room && (Complete(p, s) ==> Fits(p, s[Length(p, s)..]))
  }

  predicate IsFrame(p: Protocol, f: seq<Byte>) { p.head <= |f| && |f| == Length(p, f) }

  function Concat(fs: seq<seq<Byte>>): seq<Byte> {
    if fs == [] then [] else fs[0] + Concat(fs[1..])
  }

  // ----- what splitting means

  /** Nothing is lost, added or reordered: the frames and the rest are the stream. */
  lemma {:induction false} SplitCovers(p: Protocol, s: seq<Byte>)
    requires p.head > 0
    ensures Concat(Split(p, s)) + Rest(p, s) == s
    ensures forall k :: 0 <= k < |Split(p, s)| ==> IsFrame(p, Split(p, s)[k])
    ensures !Complete(p, Rest(p, s))
  {
    if Complete(p, s) {
      var n := Length(p, s);
      var f, tail := s[..n], s[n..];
      SplitCovers(p, tail);
      assert f[..p.head] == s[..p.head];
      assert Split(p, s)[1..] == Split(p, tail);
      assert Concat(Split(p, s)) == f + Concat(Split(p, tail));
      assert s == f + tail;
    }
  }

  /** Splitting undoes sending: frames written one after the other, with an unfinished one behind
      them, come back as they were. */
  lemma {:induction false} SplitConcat(p: Protocol, fs: seq<seq<Byte>>, r: seq<Byte>)
    requires p.head > 0 && !Complete(p, r)
    requires forall k :: 0 <= k < |fs| ==> IsFrame(p, fs[k])
    ensures Split(p, Concat(fs) + r) == fs && Rest(p, Concat(fs) + r) == r
  {
    if fs == [] {
      assert Concat(fs) + r == r;
    } else {
      SplitConcat(p, fs[1..], r);
      var tail := Concat(fs[1..]) + r;
      assert Concat(fs) + r == fs[0] + tail;
      SplitFirst(p, fs[0], tail);
    }
  }

  /** A frame in front is the first one found. */
  lemma SplitFirst(p: Protocol, f: seq<Byte>, tail: seq<Byte>)
    requires p.head > 0 && IsFrame(p, f)
    ensures Split(p, f + tail) == [f] + Split(p, tail)
    ensures Rest(p, f + tail) == Rest(p, tail)
    ensures Fits(p, f + tail) ==> |f| <= p.room && Fits(p, tail)
  {
    var s := f + tail;
    assert s[..p.head] == f[..p.head];
    assert s[..|f|] == f && s[|f|..] == tail;
  }

  /** A stream can be split piece by piece: only the unfinished frame has to be kept. */
  lemma {:induction false} SplitResumes(p: Protocol, s: seq<Byte>, more: seq<Byte>)
    requires p.head > 0
    ensures Split(p, s + more) == Split(p, s) + Split(p, Rest(p, s) + more)
    ensures Rest(p, s + more) == Rest(p, Rest(p, s) + more)
    ensures Fits(p, s + more) ==> Fits(p, Rest(p, s) + more)
  {
    if Complete(p, s) {
      var n := Length(p, s);
      var f, tail := s[..n], s[n..];
      assert f[..p.head] == s[..p.head];
      SplitResumes(p, tail, more);
      assert s + more == f + (tail + more);
      SplitFirst(p, f, tail + more);
    }
  }

  lemma {:induction false} FitsPrefix(p: Protocol, s: seq<Byte>, more: seq<Byte>)
    requires p.head > 0 && Fits(p, s + more)
    ensures Fits(p, s)
  {
    if p.head <= |s| {
      assert (s + more)[..p.head] == s[..p.head];
      if Complete(p, s) {
        var n := Length(p, s);
        assert (s + more)[n..] == s[n..] + more;
        FitsPrefix(p, s[n..], more);
      }
    }
  }

  /** Frames that came to their end, and a started one behind them. */
  lemma Unfinished(p: Protocol, done: seq<Byte>, buf: seq<Byte>)
    requires p.head > 0 && Rest(p, done) == [] && !Complete(p, buf)
    ensures Split(p, done + buf) == Split(p, done) && Rest(p, done + buf) == buf
  {
    SplitResumes(p, done, buf);
    assert [] + buf == buf;
  }

  lemma Finished(p: Protocol, done: seq<Byte>, buf: seq<Byte>)
    requires p.head > 0 && Rest(p, done) == [] && IsFrame(p, buf)
    ensures Split(p, done + buf) == Split(p, done) + [buf] && Rest(p, done + buf) == []
  {
    SplitResumes(p, done, buf);
    assert [] + buf == buf;
    SplitFirst(p, buf, []);
    assert buf + [] == buf;
  }

  lemma HeadFits(p: Protocol, done: seq<Byte>, buf: seq<Byte>, more: seq<Byte>)
    requires p.head > 0 && Rest(p, done) == [] && |buf| == p.head
    requires Fits(p, done + buf + more)
    ensures Length(p, buf) <= p.room
  {
    hide Split, Rest, Complete;
    FitsPrefix(p, done + buf, more);
    SplitResumes(p, done, buf);
    assert [] + buf == buf;
  }

  lemma {:induction false} FitsConcat(p: Protocol, fs: seq<seq<Byte>>)
    requires p.head > 0
    requires forall k :: 0 <= k < |fs| ==> IsFrame(p, fs[k]) && |fs[k]| <= p.room
    ensures Fits(p, Concat(fs))
  {
    if fs != [] {
      FitsConcat(p, fs[1..]);
      var s := Concat(fs);
      assert s[..p.head] == fs[0][..p.head];
      assert s[|fs[0]|..] == Concat(fs[1..]);
    }
  }

  /** More bytes never take a frame back. */
  lemma SplitPrefix(p: Protocol, s: seq<Byte>, t: seq<Byte>)
    requires p.head > 0 && s <= t
    ensures Split(p, s) <= Split(p, t)
  {
    assert t == s + t[|s|..];
    SplitResumes(p, s, t[|s|..]);
  }
}
