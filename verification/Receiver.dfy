/** The receive side of one connection (acc_rsvr.c): a phase machine that is entered whenever the
    socket is readable, reads until the socket has no more, and is entered again later. */
module Receiver {
  import opened Frames

  datatype Phase = Init | Head | ReadyBody | Body | Post

  datatype Ret = Ok | SckAgain | SckClose | Err

  /** What the kernel has for the next reads.  A read takes at most what it asked for of the bytes at
      the front; the other events answer one read each. */
  datatype Event = Data(bytes: seq<Byte>) | Again | Interrupted | Closed | Reset | Failed

  datatype Errno = None | EAGAIN | EINTR | ECONNRESET | Other

  // ----- what a list of events holds

  /** The event at which reading stops: the first that is neither bytes nor an interruption. */
  function Halt(es: seq<Event>): Event {
    if es == [] then Again
    else match es[0]
      case Data(bs) => if bs == [] then Again else Halt(es[1..])
      case Interrupted => Halt(es[1..])
      case e => e
  }

  /** The bytes in front of it. */
  function Ready(es: seq<Event>): seq<Byte> {
    if es == [] then []
    else match es[0]
      case Data(bs) => if bs == [] then [] else bs + Ready(es[1..])
      case Interrupted => Ready(es[1..])
      case _ => []
  }

  /** The events behind it. */
  function Later(es: seq<Event>): seq<Event> {
    if es == [] then []
    else match es[0]
      case Data(bs) => if bs == [] then es[1..] else Later(es[1..])
      case Interrupted => Later(es[1..])
      case _ => es[1..]
  }

  /** All bytes of the list, whatever stands between them. */
  function Bytes(es: seq<Event>): seq<Byte> {
    if es == [] then []
    else (if es[0].Data? then es[0].bytes else []) + Bytes(es[1..])
  }

  lemma Regroup(a: seq<Byte>, b: seq<Byte>, e: seq<Byte>)
    ensures a + (b + e) == (a + b) + e
  {
  }

  lemma {:induction false} BytesOf(es: seq<Event>)
    ensures Bytes(es) == Ready(es) + Bytes(Later(es))
    ensures es != [] ==> |Later(es)| < |es|
  {
    if es != [] && (es[0].Interrupted? || (es[0].Data? && es[0].bytes != [])) {
      BytesOf(es[1..]);
      if es[0].Data? {
        Regroup(es[0].bytes, Ready(es[1..]), Bytes(Later(es[1..])));
      }
    }
  }

  /** A read that asks for fewer bytes than there are leaves the others for the next one. */
  function AfterTaking(es: seq<Event>, n: nat): seq<Event>
    requires es != [] && es[0].Data? && n <= |es[0].bytes|
  {
    if n == |es[0].bytes| then es[1..] else [Data(es[0].bytes[n..])] + es[1..]
  }

  lemma TakeBytes(es: seq<Event>, n: nat)
    requires es != [] && es[0].Data? && 0 < n <= |es[0].bytes|
    ensures var rest := AfterTaking(es, n);
      && Ready(es) == es[0].bytes[..n] + Ready(rest)
      && Halt(rest) == Halt(es) && Later(rest) == Later(es)
      && |Bytes(rest)| + n == |Bytes(es)| && |rest| <= |es|
  {
    var bs := es[0].bytes;
    assert bs == bs[..n] + bs[n..];
    if n < |bs| {
      assert AfterTaking(es, n)[1..] == es[1..];
      assert bs[..n] + (bs[n..] + Ready(es[1..])) == bs + Ready(es[1..]);
    } else {
      assert bs[..n] == bs;
    }
  }

  predicate OnlySends(es: seq<Event>) {
    forall e :: e in es ==> e.Data? || e.Again? || e.Interrupted?
  }

  lemma {:induction false} Sends(es: seq<Event>)
    requires OnlySends(es)
    ensures OnlySends(Later(es)) && Halt(es) == Again
  {
    if es != [] && (es[0].Interrupted? || (es[0].Data? && es[0].bytes != [])) {
      Sends(es[1..]);
    }
  }

  /** The peer, or the connection, comes to its end with this event. */
  predicate Ends(e: Event) { e in {Closed, Reset, Failed} }

  /** What comes before the first such event. */
  function Before(es: seq<Event>): seq<Event> {
    if es == [] || Ends(es[0]) then [] else [es[0]] + Before(es[1..])
  }

  /** The first such event, if there is one. */
  function End(es: seq<Event>): Event {
    if es == [] then Again else if Ends(es[0]) then es[0] else End(es[1..])
  }

  lemma {:induction false} BeforeEnd(pre: seq<Event>, e: Event, post: seq<Event>)
    requires OnlySends(pre) && Ends(e)
    ensures Before(pre + [e] + post) == pre && End(pre + [e] + post) == e
  {
    var es := pre + [e] + post;
    if pre != [] {
      BeforeEnd(pre[1..], e, post);
      assert es[1..] == pre[1..] + [e] + post;
      assert es[0] == pre[0] && pre[0] in pre;
    } else {
      assert es[0] == e;
    }
  }

  lemma {:induction false} NeverEnds(es: seq<Event>)
    requires OnlySends(es)
    ensures Before(es) == es && End(es) == Again
  {
    if es != [] {
      NeverEnds(es[1..]);
      assert es[0] in es;
    }
  }

  lemma {:induction false} BeforeIsFirst(es: seq<Event>)
    ensures Bytes(Before(es)) <= Bytes(es)
    ensures End(es) == Again ==> Before(es) == es
    ensures Ends(End(es)) || End(es) == Again
  {
    if es != [] && !Ends(es[0]) {
      BeforeIsFirst(es[1..]);
      assert Before(es)[1..] == Before(es[1..]);
    }
  }

  /** One entry reads up to the end, or up to a pause behind which the rest is to come. */
  lemma {:induction false} UpToHalt(es: seq<Event>)
    ensures Ends(Halt(es)) ==> Bytes(Before(es)) == Ready(es) && End(es) == Halt(es)
    ensures !Ends(Halt(es)) ==> Bytes(Before(es)) == Ready(es) + Bytes(Before(Later(es))) && End(es) == End(Later(es))
    ensures !Ends(Halt(es)) ==> Halt(es) == Again
  {
    if es != [] && !Ends(es[0]) {
      assert Before(es)[1..] == Before(es[1..]);
      if es[0].Interrupted? || (es[0].Data? && es[0].bytes != []) {
        UpToHalt(es[1..]);
        if es[0].Data? {
          Regroup(es[0].bytes, Ready(es[1..]), Bytes(Before(Later(es[1..]))));
        }
      }
    }
  }

  class Receiver {
    const proto: Protocol
    /** The answer of the protocol's callback, which may depend on all it was given so far. */
    const accepts: seq<seq<Byte>> -> bool

    var phase: Phase
    var off: nat
    var total: nat
    var addr: array?<Byte>

    var events: seq<Event>
    var delivered: seq<seq<Byte>>

    /** All bytes read so far, and the part of them that made up the delivered frames. */
    ghost var stream: seq<Byte>
    ghost var done: seq<Byte>

    constructor (proto: Protocol, accepts: seq<seq<Byte>> -> bool, events: seq<Event>)
      requires Usable(proto)
      ensures this.proto == proto && this.accepts == accepts && this.events == events
      ensures stream == [] && delivered == [] && phase == Init
      ensures Valid() && fresh(Repr())
    {
      this.proto, this.accepts, this.events := proto, accepts, events;
      phase, off, total, addr := Init, 0, 0, null;
      delivered, stream, done := [], [], [];
    }

    ghost function Repr(): set<object>
      reads this
    {
      if addr == null then {this} else {this, addr}
    }

    /** Every answer of the callback up to now was that it took the frame. */
    ghost predicate AllAccepted()
      reads this`delivered
    {
      forall k :: 1 <= k <= |delivered| ==> accepts(delivered[..k])
    }

    /** Its last answer was the first that it did not take one. */
    ghost predicate RefusedLast()
      reads this`delivered
    {
      && delivered != [] && !accepts(delivered)
      && forall k :: 1 <= k < |delivered| ==> accepts(delivered[..k])
    }

    /** The delivered frames are those of the stream up to the frame being received, and the buffer
        holds what has been read of that one. */
    ghost predicate Framed()
      reads this, addr
    {
      && Usable(proto)
      && delivered == Split(proto, done) && Rest(proto, done) == []
      && (addr == null ==> stream == done)
      && (addr != null ==> addr.Length == proto.room && off <= proto.room && stream == done + addr[..off])
    }

    /** The length of the frame whose head is in the buffer. */
    ghost function Declared(): nat
      requires addr != null && proto.head <= addr.Length
      reads this, addr
    {
      proto.head + proto.body(addr[..proto.head])
    }

    /** Where a call may start: the saved phase, offset and total describe the unfinished frame. */
    ghost predicate Valid()
      reads this, addr
    {
      && Framed() && AllAccepted()
      && match phase
         case Init => addr == null
         case Head => addr != null && off < total == proto.head
         case Body => addr != null && proto.head <= off < total == Declared() <= proto.room
         case _ => false
    }

    /** What Valid means for the whole stream. */
    lemma Describes()
      requires Valid()
      ensures delivered == Split(proto, stream)
      ensures Rest(proto, stream) == if addr == null then [] else addr[..off]
    {
      if addr == null {
        assert done + [] == done;
      } else {
        assert phase == Body ==> addr[..off][..proto.head] == addr[..proto.head];
        Unfinished(proto, done, addr[..off]);
      }
    }

    /** read(2): at most `left` bytes into the buffer at `off`.  Returns the number of bytes, 0 for the
        end of the stream, and -1 with the error number otherwise. */
    method Read(left: nat) returns (n: int, errno: Errno)
      requires addr != null && off + left <= addr.Length && left > 0
      modifies this`events, this`stream, addr
      ensures n <= left && (n < 0 <==> errno != None)
      ensures addr[..off] == old(addr[..off])
      ensures n > 0 ==> stream == old(stream) + addr[off..off + n]
      ensures n <= 0 ==> stream == old(stream)
      ensures n > 0 || errno == EINTR ==> stream + Ready(events) == old(stream + Ready(events))
      ensures n > 0 || errno == EINTR ==> Halt(events) == Halt(old(events)) && Later(events) == Later(old(events))
      ensures n > 0 || errno == EINTR ==> |events| + |Bytes(events)| < old(|events| + |Bytes(events)|)
      ensures n <= 0 && errno != EINTR ==> events == Later(old(events)) && stream == old(stream + Ready(events))
      ensures n == 0 ==> Halt(old(events)) == Closed
      ensures errno == EAGAIN ==> Halt(old(events)) == Again
      ensures errno == ECONNRESET ==> Halt(old(events)) == Reset
      ensures errno == Other ==> Halt(old(events)) == Failed
    {
      assert stream + [] == stream;
      if events == [] || (events[0].Data? && events[0].bytes == []) {
        events := if events == [] then [] else events[1..];
        return -1, EAGAIN;
      }
      match events[0] {
        case Data(bs) =>
          n, errno := if |bs| <= left then |bs| else left, None;
          Store(bs[..n]);
          TakeBytes(events, n);
          assert stream + (bs[..n] + Ready(AfterTaking(events, n))) ==
            (stream + bs[..n]) + Ready(AfterTaking(events, n));
          events := AfterTaking(events, n);
          stream := stream + bs[..n];
        case Again => events := events[1..]; return -1, EAGAIN;
        case Interrupted => events := events[1..]; return -1, EINTR;
        case Closed => events := events[1..]; return 0, None;
        case Reset => events := events[1..]; return -1, ECONNRESET;
        case Failed => events := events[1..]; return -1, Other;
      }
    }

    /** The kernel's copy into the buffer. */
    method Store(bs: seq<Byte>)
      requires addr != null && off + |bs| <= addr.Length
      modifies addr
      ensures addr[..off] == old(addr[..off]) && addr[off..off + |bs|] == bs
    {
      for i := 0 to |bs|
        invariant addr[..off] == old(addr[..off]) && addr[off..off + i] == bs[..i]
      {
        addr[off + i] := bs[i];
      }
    }

    /** Nothing but bytes went by: reading will stop where it would have stopped before. */
    twostate predicate SameHalt()
      reads this
    {
      && stream + Ready(events) == old(stream + Ready(events))
      && Halt(events) == Halt(old(events)) && Later(events) == Later(old(events))
      && |events| + |Bytes(events)| <= old(|events| + |Bytes(events)|)
    }

    /** All bytes up to the halting event were read, and it was consumed. */
    twostate predicate Halted()
      reads this
    {
      stream == old(stream + Ready(events)) && events == Later(old(events))
    }

    method RecvHead() returns (ret: Ret)
      requires Framed() && addr != null && off < proto.head
      modifies this`events, this`stream, this`off, addr
      ensures Framed() && off <= proto.head
      ensures ret == Ok ==>
        off == proto.head && SameHalt() && |events| + |Bytes(events)| < old(|events| + |Bytes(events)|)
      ensures ret != Ok ==> off < proto.head && Halted()
      ensures ret == SckAgain ==> Halt(old(events)) == Again
      ensures ret == SckClose ==> Halt(old(events)) in {Closed, Reset}
      ensures ret == Err ==> Halt(old(events)) == Failed
    {
      hide Halt, Later, Ready, Bytes, Split, Rest, Complete, Length;
      while true
        invariant Framed() && off < proto.head && SameHalt()
        decreases |events| + |Bytes(events)|
      {
        var left := proto.head - off;
        var n, errno := Read(left);
        if n == left {
          off := off + n;
          return Ok;
        } else if n > 0 {
          off := off + n;
          continue;
        } else if n == 0 || errno == ECONNRESET {
          return SckClose;
        } else if n < 0 && errno == EAGAIN {
          return SckAgain;
        } else if errno == EINTR {
          continue;
        }
        return Err;
      }
    }

    method RecvBody() returns (ret: Ret)
      requires Framed() && addr != null && off < total <= proto.room
      modifies this`events, this`stream, this`off, addr
      ensures Framed() && (proto.head <= old(off) ==> addr[..proto.head] == old(addr[..proto.head]))
      ensures ret == Ok ==> off == total && SameHalt() && |events| + |Bytes(events)| < old(|events| + |Bytes(events)|)
      ensures ret != Ok ==> old(off) <= off < total && Halted()
      ensures ret == SckAgain ==> Halt(old(events)) == Again
      ensures ret == SckClose ==> Halt(old(events)) == Closed
      ensures ret == Err ==> Halt(old(events)) in {Reset, Failed}
    {
      hide Halt, Later, Ready, Bytes, Split, Rest, Complete, Length;
      while true
        invariant Framed() && old(off) <= off < total && SameHalt()
        invariant proto.head <= old(off) ==> addr[..proto.head] == old(addr[..proto.head])
        decreases |events| + |Bytes(events)|
      {
        var left := total - off;
        var n, errno := Read(left);
        if n == left {
          off := off + n;
          return Ok;
        } else if n > 0 {
          off := off + n;
          continue;
        } else if n == 0 {
          return SckClose;
        } else if n < 0 && errno == EAGAIN {
          return SckAgain;
        }
        if errno == EINTR {
          continue;
        }
        return Err;
      }
    }

    /** The head is there: the declared body is added to what is expected, once for each frame. */
    method ReadHead()
      requires Framed() && phase == Head && addr != null && off == total == proto.head
      requires Fits(proto, stream + Ready(events))
      modifies this`phase, this`total
      ensures phase == Body || phase == Post
      ensures total == Declared() <= proto.room
      ensures off <= total && (phase == Body <==> off < total)
    {
      HeadFits(proto, done, addr[..off], Ready(events));
      assert addr[..off][..proto.head] == addr[..off];
      if proto.body(addr[..proto.head]) != 0 {
        phase := ReadyBody;
      } else {
        phase := Post;
      }
      if phase == ReadyBody {
        total := total + proto.body(addr[..proto.head]);
        phase := Body;
      }
    }

    /** The frame is there: it is handed to the callback and the buffer is given up. */
    method RecvPost() returns (ret: Ret)
      requires Framed() && phase == Post && addr != null && proto.head <= off == Declared()
      modifies this`phase, this`addr, this`delivered, this`done
      ensures Framed() && addr == null && done == stream
      ensures delivered == old(delivered) + [old(addr[..off])]
      ensures ret == (if accepts(delivered) then Ok else Err)
      ensures AllAccepted() <==> old(AllAccepted()) && ret == Ok
      ensures old(AllAccepted()) && ret != Ok ==> RefusedLast()
      ensures ret == Ok ==> phase == Init
    {
      assert addr[..off][..proto.head] == addr[..proto.head];
      Finished(proto, done, addr[..off]);
      delivered := delivered + [addr[..proto.body(addr[..proto.head]) + proto.head]];
      Accepted(accepts, old(delivered), delivered);
      done := stream;
      ret := if accepts(delivered) then Ok else Err;
      addr := null;
      if ret == Ok {
        phase := Init;
      }
    }

    /** Receiving ends for good: the buffer is given up. */
    method Drop()
      requires Valid()
      modifies this`addr
      ensures addr == null && delivered == Split(proto, stream)
      ensures |Rest(proto, stream)| == if old(addr) == null then 0 else off
    {
      Describes();
      addr := null;
    }

    /** How an entry into the phase machine ends.  What was delivered is a function of the bytes alone,
        however they were cut; unless the callback refused a frame, reading stopped at the halting
        event and the answer tells which it was. */
    twostate predicate Ended(ret: Ret)
      reads this, addr
    {
      && Usable(proto)
      && old(delivered) <= delivered && delivered == Split(proto, stream)
      && stream <= old(stream + Ready(events))
      && (ret == SckAgain ==> Valid()) && (ret != SckAgain ==> addr == null)
      && ret == (
        if !AllAccepted() then Err
        else match Halt(old(events))
          case Closed => SckClose
          case Failed => Err
          case Reset => if |Rest(proto, stream)| < proto.head then SckClose else Err
          case _ => SckAgain)
      && (AllAccepted() ==> Halted()) && (!AllAccepted() ==> RefusedLast())
    }

    /** The frame whose head is in the buffer is not all there, or just all there. */
    ghost predicate Headed()
      reads this, addr
    {
      && Framed() && AllAccepted()
      && addr != null && proto.head <= off <= total == Declared() <= proto.room
      && phase == (if off < total then Body else Post)
    }

    /** The phases up to the head's end, from wherever the last call left it. */
    method HeadPhases() returns (ret: Ret)
      requires Valid() && Fits(proto, stream + Ready(events)) && phase != Body
      modifies this`phase, this`off, this`total, this`addr, this`events, this`stream, addr
      ensures addr == null || addr == old(addr) || fresh(addr)
      ensures ret == Ok ==> Headed() && SameHalt() && |events| + |Bytes(events)| < old(|events| + |Bytes(events)|)
      ensures ret != Ok ==> Ended(ret)
    {
      hide Halt, Later, Ready, Bytes, Split, Rest, Fits, AllAccepted;
      if phase == Init {
        addr := new Byte[proto.room];
        off := 0;
        total := proto.head;
        phase := Head;
      }
      ret := RecvHead();
      if ret == SckAgain {
        Describes();
        return;
      } else if ret != Ok {
        Drop();
        return;
      }
      ReadHead();
    }

    /** One frame. */
    method RecvFrame() returns (ret: Ret)
      requires Valid() && Fits(proto, stream + Ready(events))
      modifies this`phase, this`off, this`total, this`addr, this`events, this`stream, this`done, this`delivered, addr
      ensures addr == null || addr == old(addr) || fresh(addr)
      ensures ret == Ok ==> Valid() && addr == null && SameHalt() && old(delivered) <= delivered
      ensures ret == Ok ==> |events| + |Bytes(events)| < old(|events| + |Bytes(events)|)
      ensures ret != Ok ==> Ended(ret)
    {
      hide Halt, Later, Ready, Bytes, Split, Rest, Fits, AllAccepted;
      if phase == Init || phase == Head {
        ret := HeadPhases();
        if ret != Ok {
          return;
        }
      }
      if phase == Body {
        ret := RecvBody();
        if ret == SckAgain {
          Describes();
          return;
        } else if ret != Ok {
          Drop();
          return;
        }
        phase := Post;
      }
      ret := RecvPost();
    }

    /** One entry into the phase machine: it goes on until the socket has no more bytes, the
        connection ends or the callback refuses a frame. */
    method RecvData() returns (ret: Ret)
      requires Valid() && Fits(proto, stream + Ready(events))
      modifies this`phase, this`off, this`total, this`addr, this`events, this`stream, this`done, this`delivered, addr
      ensures addr == null || addr == old(addr) || fresh(addr)
      ensures Ended(ret)
    {
      hide Halt, Later, Ready, Bytes, Split, Rest, Fits, AllAccepted;
      while true
        invariant addr == null || addr == old(addr) || fresh(addr)
        invariant Valid() && SameHalt() && old(delivered) <= delivered
        invariant Fits(proto, stream + Ready(events))
        decreases |events| + |Bytes(events)|
      {
        ret := RecvFrame();
        if ret != Ok {
          return;
        }
      }
    }

    /** How the connection ends with this event. */
    ghost function Answer(e: Event): Ret
      requires Usable(proto)
      reads this`stream
    {
      match e
      case Closed => SckClose
      case Failed => Err
      case Reset => if |Rest(proto, stream)| < proto.head then SckClose else Err
      case _ => SckAgain
    }

    /** The receiver's event loop for this connection: enter whenever the socket is readable, drop the
        connection unless the answer is to come again.  Whatever the pieces and the pauses, all bytes that
        came before the end of the connection are read, and their frames are delivered in order; the
        connection ends earlier only if the callback refuses a frame, and that is the last one delivered. */
    method Serve() returns (ret: Ret)
      requires Valid() && Fits(proto, stream + Bytes(Before(events)))
      modifies this`phase, this`off, this`total, this`addr, this`events, this`stream, this`done, this`delivered, addr
      ensures Usable(proto) && delivered == Split(proto, stream) && old(delivered) <= delivered
      ensures stream <= old(stream + Bytes(Before(events)))
      ensures delivered <= Split(proto, old(stream + Bytes(Before(events))))
      ensures AllAccepted() ==> stream == old(stream + Bytes(Before(events))) && ret == Answer(End(old(events)))
      ensures !AllAccepted() ==> ret == Err && RefusedLast()
      ensures ret == SckAgain ==> Valid() && stream == old(stream + Bytes(events))
      ensures AllAccepted() && OnlySends(old(events)) ==> ret == SckAgain
    {
      hide Halt, Later, Ready, Split, Rest, Fits, AllAccepted, RefusedLast, Before, End, Bytes;
      ret := SckAgain;
      Describes();
      ghost var whole := stream + Bytes(Before(events));
      BeforeIsFirst(events);
      if OnlySends(events) { NeverEnds(events); }
      while events != []
        invariant addr == null || addr == old(addr) || fresh(addr)
        invariant ret == SckAgain && Valid() && delivered == Split(proto, stream) && old(delivered) <= delivered
        invariant stream + Bytes(Before(events)) == whole && End(events) == End(old(events))
        decreases |events|
      {
        ghost var was, ready, later := stream, Ready(events), Bytes(Before(Later(events)));
        BytesOf(events);
        Piece(events, was, whole);
        ret := RecvData();
        if ret != SckAgain {
          PrefixSplits(whole);
          return;
        }
        Describes();
        assert (was + ready) + later == whole;
      }
      NoMore(events, stream);
      PrefixSplits(whole);
    }

    /** What the next entry may read is part of the whole. */
    lemma Piece(es: seq<Event>, was: seq<Byte>, whole: seq<Byte>)
      requires proto.head > 0 && was + Bytes(Before(es)) == whole && Fits(proto, whole)
      ensures was + Ready(es) <= whole && Fits(proto, was + Ready(es))
      ensures Ends(Halt(es)) ==> was + Ready(es) == whole && End(es) == Halt(es)
      ensures !Ends(Halt(es)) ==> (was + Ready(es)) + Bytes(Before(Later(es))) == whole && End(es) == End(Later(es))
      ensures !Ends(Halt(es)) ==> Halt(es) == Again
    {
      hide Halt, Later, Ready, Fits, Before, End, Bytes;
      UpToHalt(es);
      if !Ends(Halt(es)) {
        Regroup(was, Ready(es), Bytes(Before(Later(es))));
        FitsPrefix(proto, was + Ready(es), Bytes(Before(Later(es))));
      }
    }

    /** A part of the bytes holds the first of the frames. */
    lemma PrefixSplits(whole: seq<Byte>)
      requires proto.head > 0
      ensures stream <= whole ==> Split(proto, stream) <= Split(proto, whole)
    {
      if stream <= whole {
        SplitPrefix(proto, stream, whole);
      }
    }

    lemma NoMore(es: seq<Event>, was: seq<Byte>)
      ensures es == [] ==> was + Bytes(Before(es)) == was && End(es) == Again
    {
      assert was + [] == was;
    }

    /** A peer that sends whole frames one after the other, in any pieces, and then closes, or does not, has
        exactly these frames delivered, and nothing is left over. */
    method DeliversWhatWasSent(sent: seq<seq<Byte>>) returns (ret: Ret)
      requires Valid() && stream == [] && Bytes(Before(events)) == Concat(sent)
      requires forall k :: 0 <= k < |sent| ==> IsFrame(proto, sent[k]) && |sent[k]| <= proto.room
      requires forall given: seq<seq<Byte>> :: given <= sent ==> accepts(given)
      modifies this`phase, this`off, this`total, this`addr, this`events, this`stream, this`done, this`delivered, addr
      ensures delivered == sent && (ret == SckAgain ==> Valid())
      ensures ret == match End(old(events))
        case Closed => SckClose
        case Reset => SckClose
        case Failed => Err
        case _ => SckAgain
    {
      hide Before, End, Halt, Later, Ready;
      assert stream + Bytes(Before(events)) == Concat(sent) == Concat(sent) + [];
      SplitConcat(proto, sent, []);
      FitsConcat(proto, sent);
      ret := Serve();
      assert delivered <= sent;
      if !AllAccepted() {
        assert false;
      }
    }
  }

  /** One more answer of the callback. */
  lemma Accepted(accepts: seq<seq<Byte>> -> bool, before: seq<seq<Byte>>, after: seq<seq<Byte>>)
    requires |after| == |before| + 1 && before == after[..|before|]
    ensures (forall k :: 1 <= k <= |after| ==> accepts(after[..k]))
       <==> (forall k :: 1 <= k <= |before| ==> accepts(before[..k])) && accepts(after)
    ensures forall k :: 1 <= k <= |before| ==> after[..k] == before[..k]
  {
    assert after[..|after|] == after;
    assert forall k :: 1 <= k <= |before| ==> after[..k] == before[..k];
  }
}
