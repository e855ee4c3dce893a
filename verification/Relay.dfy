/** The relay of `direct_tcpip.c`: one loop moves bytes from a local socket to an SSH channel and
    back, through one buffer. */
module Relay {
  import opened Wire

  /** The calls the relay makes. Offers carry the bytes offered, reads the room in the buffer. */
  datatype Call =
    | Poll                              // select on the socket
    | Recv(room: nat)                   // from the socket
    | ChannelWrite(offer: seq<byte>)
    | ChannelRead(room: nat)
    | Send(offer: seq<byte>)            // to the socket
    | AskEof                            // libssh2_channel_eof, zero for "no"

  /** The calls so far, last one outermost, with the reply and, for a read, the bytes it brought. */
  datatype Trace = Begin | Did(before: Trace, call: Call, reply: Reply, data: seq<byte>)

  datatype Direction = Up | Down

  /** The trace ends in a reply that makes the relay shut down. */
  predicate Over(t: Trace) {
    t.Did? &&
    match t.call
    case Poll => !t.reply.Count?
    case Recv(_) => !t.reply.Count? || t.reply.n == 0
    case ChannelWrite(_) => t.reply == Error
    case ChannelRead(_) => t.reply == Error
    case Send(_) => !t.reply.Count? || t.reply.n == 0
    case AskEof => t.reply != Count(0)
  }

  /** The call that is due next. It depends on the last call and its reply alone, and there is no
      buffer in it: what is to be written is what came in, or what the last write left over. */
  ghost function Due(t: Trace, cap: nat): Call
    requires Fair(t)
  {
    match t
    case Begin => Poll
    case Did(_, Poll, reply, _) => if CountOf(reply) > 0 then Recv(cap) else ChannelRead(cap)
    case Did(_, Recv(_), _, data) => ChannelWrite(data)
    case Did(_, ChannelWrite(offer), reply, _) =>
      if CountOf(reply) < |offer| then ChannelWrite(offer[CountOf(reply)..]) else ChannelRead(cap)
    case Did(_, ChannelRead(_), reply, data) =>
      if reply == Again then Poll else if data == [] then AskEof else Send(data)
    case Did(_, Send(offer), reply, _) =>
      if CountOf(reply) < |offer| then Send(offer[CountOf(reply)..]) else AskEof
    case Did(_, AskEof, _, _) => ChannelRead(cap)
  }

  /** What ends the relay: an error of libssh2, where EAGAIN is none; anything but progress from the socket,
      where EAGAIN is an error and zero a disconnect; and the end of the channel. */
  predicate Fails(call: Call, reply: Reply) {
    match call
    case Poll => reply == Again || reply == Error
    case Recv(_) => CountOf(reply) == 0
    case Send(_) => CountOf(reply) == 0
    case ChannelRead(_) => reply == Error
    case ChannelWrite(_) => reply == Error
    case AskEof => !reply.Count? || reply.n != 0
  }

  ghost predicate GoesWell(t: Trace) {
    t.Did? ==> GoesWell(t.before) && !Fails(t.call, t.reply)
  }

  /** The relay ends at the first failure, and at nothing else. In particular no run ends in an EAGAIN from
      the channel. */
  lemma {:induction false} EndsAtFirstFailure(t: Trace, cap: nat)
    requires Follows(t, cap)
    ensures if Over(t) then Fails(t.call, t.reply) && GoesWell(t.before) else GoesWell(t)
  {
    if t.Did? {
      EndsAtFirstFailure(t.before, cap);
    }
  }

  /** Every call has its reason in the one before. The socket is polled at first and whenever the channel
      has nothing more; it is read when the poll says so. The channel is read when the poll says no, when
      everything from the socket has been passed on, and again and again until it would block. */
  lemma ReasonOfCall(t: Trace, cap: nat)
    requires Follows(t, cap) && t.Did?
    ensures t.call.Poll? <==> t.before.Begin? || (t.before.call.ChannelRead? && t.before.reply == Again)
    ensures t.call.Recv? <==> t.before.Did? && t.before.call.Poll? && t.before.reply != Count(0)
    ensures t.call.ChannelRead? <==>
              t.before.Did? && (t.before.call == Poll || t.before.call == AskEof || t.before.call.ChannelWrite?)
              && CountOf(t.before.reply) == if t.before.call.ChannelWrite? then |t.before.call.offer| else 0
    ensures t.call.AskEof? <==>
              t.before.Did? && (t.before.call.Send? || t.before.call.ChannelRead?) && t.before.reply.Count?
              && t.before.reply.n == if t.before.call.Send? then |t.before.call.offer| else 0
  {
    EndsAtFirstFailure(t.before, cap);
    if t.before.Did? && t.before.call.ChannelWrite? {
      OffersSomething(t.before, cap, Up);
    }
    if t.before.Did? && t.before.call.Send? {
      OffersSomething(t.before, cap, Down);
    }
  }

  /** The last reply is one the call can have: writes take at most what is offered, reads bring as
      many bytes as they say, and no more than there is room for. */
  ghost predicate Fair(t: Trace) {
    t.Did? ==>
      match t.call
      case ChannelWrite(offer) => CountOf(t.reply) <= |offer|
      case Send(offer) => CountOf(t.reply) <= |offer|
      case Recv(room) => |t.data| == CountOf(t.reply) <= room
      case ChannelRead(room) => |t.data| == CountOf(t.reply) <= room
      case _ => true
  }

  /** Every call was the one that was due. */
  ghost predicate Follows(t: Trace, cap: nat) {
    match t
    case Begin => true
    case Did(before, call, _, _) =>
      Fair(t) && Follows(before, cap) && !Over(before) && Fair(before) && call == Due(before, cap)
  }

  /** The bytes received from one side. */
  ghost function In(t: Trace, d: Direction): seq<byte> {
    match t
    case Begin => []
    case Did(before, call, _, data) =>
      if (d == Up && call.Recv?) || (d == Down && call.ChannelRead?) then In(before, d) + data
      else In(before, d)
  }

  /** The bytes the other side has taken. */
  ghost function Out(t: Trace, d: Direction): seq<byte> {
    match t
    case Begin => []
    case Did(before, call, reply, _) =>
      if (d == Up && call.ChannelWrite?) || (d == Down && call.Send?)
      then Out(before, d) + call.offer[..Min(CountOf(reply), |call.offer|)]
      else Out(before, d)
  }

  /** The bytes that are still to be written: nothing, unless the last call brought some in or was a
      write that did not take everything. */
  ghost function Pending(t: Trace, d: Direction): seq<byte>
    requires Fair(t)
  {
    if t.Begin? then []
    else match t.call
      case Recv(_) => if d == Up then t.data else []
      case ChannelWrite(offer) => if d == Up then offer[CountOf(t.reply)..] else []
      case ChannelRead(_) => if d == Down then t.data else []
      case Send(offer) => if d == Down then offer[CountOf(t.reply)..] else []
      case _ => []
  }

  /** Nothing is lost, repeated, reordered or sent the wrong way: in every state of every run, what
      came in from one side is what the other side has taken, followed by what is pending. */
  lemma {:induction false} Conservation(t: Trace, cap: nat, d: Direction)
    requires Follows(t, cap)
    ensures Fair(t) && In(t, d) == Out(t, d) + Pending(t, d)
  {
    if t.Did? {
      Conservation(t.before, cap, d);
      PendingIsDue(t, cap);
      if t.call.ChannelWrite? || t.call.Send? {
        SplitOffer(Out(t.before, d), t.call.offer, CountOf(t.reply));
      }
    }
  }

  lemma SplitOffer(out: seq<byte>, offer: seq<byte>, n: nat)
    requires n <= |offer|
    ensures out + offer == (out + offer[..n]) + offer[n..]
  {
    assert offer[..n] + offer[n..] == offer;
  }

  /** What is offered is what is pending, and where nothing is offered nothing is. */
  lemma PendingIsDue(t: Trace, cap: nat)
    requires Follows(t, cap) && t.Did?
    ensures Fair(t.before)
    ensures Pending(t.before, Up) == if t.call.ChannelWrite? then t.call.offer else []
    ensures Pending(t.before, Down) == if t.call.Send? then t.call.offer else []
  {
  }

  /** The shared buffer is enough: bytes are pending in one direction at most, and no more of them
      than the buffer holds. */
  lemma {:induction false} OneBufferSuffices(t: Trace, cap: nat)
    requires Follows(t, cap)
    ensures Fair(t) && (Pending(t, Up) == [] || Pending(t, Down) == [])
    ensures |Pending(t, Up)| + |Pending(t, Down)| <= cap
  {
    if t.Did? {
      OneBufferSuffices(t.before, cap);
    }
  }

  /** A read never overwrites bytes that are still to be written. */
  lemma RefilledOnlyWhenDrained(t: Trace, cap: nat)
    requires Follows(t, cap) && t.Did? && (t.call.Recv? || t.call.ChannelRead?)
    ensures Pending(t.before, Up) == [] && Pending(t.before, Down) == []
    ensures t.call.room == cap
  {
  }

  /** When either side disconnects in the regular way, everything that came in has been passed on;
      after a failed write the other direction still has lost nothing. */
  lemma ShutdownLosesOnlyTheFailedWrite(t: Trace, cap: nat, d: Direction)
    requires Follows(t, cap) && Over(t)
    ensures In(t, d) == Out(t, d) || (d == Up && t.call.ChannelWrite?) || (d == Down && t.call.Send?)
    ensures Out(t, d) <= In(t, d)
  {
    Conservation(t, cap, d);
  }

  /** What has been passed on in a direction is a prefix of what the sender had to send. */
  lemma PassesOnAPrefix(t: Trace, cap: nat, d: Direction, all: seq<byte>, unread: seq<byte>)
    requires Follows(t, cap) && In(t, d) + unread == all
    ensures Out(t, d) <= all
  {
    Conservation(t, cap, d);
  }

  /** How many bytes the replies to the reads of one side stand for. */
  ghost function Received(t: Trace, d: Direction): nat {
    match t
    case Begin => 0
    case Did(before, call, reply, _) =>
      Received(before, d) +
      if (d == Up && call.Recv?) || (d == Down && call.ChannelRead?) then CountOf(reply) else 0
  }

  lemma {:induction false} ReceivedIsIn(t: Trace, cap: nat, d: Direction)
    requires Follows(t, cap)
    ensures |In(t, d)| == Received(t, d)
  {
    if t.Did? {
      ReceivedIsIn(t.before, cap, d);
    }
  }

  /** The last call is a write in this direction. */
  predicate EndsInWrite(t: Trace, d: Direction) {
    t.Did? && if d == Up then t.call.ChannelWrite? else t.call.Send?
  }

  lemma OffersSomething(t: Trace, cap: nat, d: Direction)
    requires Follows(t, cap) && EndsInWrite(t, d)
    ensures t.call.offer != []
  {
  }

  /** When the relay has shut down, one side has got all that the other had to send exactly if the reads had
      brought all of it by then, and it is not a write of it that has failed. */
  lemma AllPassedOnExactlyWhen(t: Trace, cap: nat, d: Direction, all: seq<byte>, unread: seq<byte>)
    requires Follows(t, cap) && Over(t) && In(t, d) + unread == all
    ensures Out(t, d) == all <==> Received(t, d) == |all| && !EndsInWrite(t, d)
  {
    Conservation(t, cap, d);
    ReceivedIsIn(t, cap, d);
    if EndsInWrite(t, d) {
      OffersSomething(t, cap, d);
      assert |Pending(t, d)| > 0;
    } else {
      assert Pending(t, d) == [];
    }
  }

  /** A disconnect of the local side is one end that cuts the other direction short: nothing of what the
      channel has to send is read any more. */
  lemma DisconnectDropsTheRest(cap: nat) returns (t: Trace)
    ensures Follows(t, cap) && Over(t) && t.call == Recv(cap) && t.reply == Count(0)
    ensures Received(t, Down) == 0 && Out(t, Down) == []
  {
    var polled := Did(Begin, Poll, Count(1), []);
    assert Follows(polled, cap) && Received(polled, Down) == 0;
    t := Did(polled, Recv(cap), Count(0), []);
  }

  /** The world of the relay: what the two sides will send, and the replies. */
  class Link {
    ghost const allUp: seq<byte>
    ghost const allDown: seq<byte>
    var script: seq<Reply>
    var fromSocket: seq<byte>
    var fromChannel: seq<byte>
    ghost var trace: Trace

    constructor (script: seq<Reply>, fromSocket: seq<byte>, fromChannel: seq<byte>)
      ensures Valid() && trace == Begin && this.script == script && allUp == fromSocket && allDown == fromChannel
    {
      allUp, allDown := fromSocket, fromChannel;
      this.script, this.fromSocket, this.fromChannel, trace := script, fromSocket, fromChannel, Begin;
    }

    /** What each side had to send is what has been read from it and what is still to come. */
    ghost predicate Valid()
      reads this
    {
      In(trace, Up) + fromSocket == allUp && In(trace, Down) + fromChannel == allDown
    }

    method Ask(ghost call: Call) returns (r: Reply)
      requires Valid() && (call.Poll? || call.AskEof?)
      modifies this
      ensures Valid() && trace == Did(old(trace), call, r, [])
      ensures r == (if old(script) == [] then Error else old(script)[0]) && script == Rest(old(script))
    {
      r := if script == [] then Error else script[0];
      script := Rest(script);
      trace := Did(trace, call, r, []);
    }

    method Read(d: Direction, buf: array<byte>) returns (r: Reply)
      requires Valid()
      modifies this, buf
      ensures Valid() && CountOf(r) <= buf.Length
      ensures trace == Did(old(trace), if d == Up then Recv(buf.Length) else ChannelRead(buf.Length),
                           r, buf[..CountOf(r)])
      ensures r == Answer(old(script), Min(buf.Length, |if d == Up then old(fromSocket) else old(fromChannel)|))
      ensures script == Rest(old(script))
    {
      var stream := if d == Up then fromSocket else fromChannel;
      r := Answer(script, Min(buf.Length, |stream|));
      script := Rest(script);
      forall i | 0 <= i < CountOf(r) {
        buf[i] := stream[i];
      }
      assert In(trace, d) + stream == (In(trace, d) + buf[..CountOf(r)]) + stream[CountOf(r)..];
      if d == Up {
        fromSocket := stream[CountOf(r)..];
      } else {
        fromChannel := stream[CountOf(r)..];
      }
      trace := Did(trace, if d == Up then Recv(buf.Length) else ChannelRead(buf.Length), r, buf[..CountOf(r)]);
    }

    method Write(d: Direction, buf: array<byte>, from: nat, n: nat) returns (r: Reply)
      requires Valid() && from + n <= buf.Length
      modifies this
      ensures Valid() && CountOf(r) <= n
      ensures trace == Did(old(trace), Offer(d, old(buf[..])[from..from + n]), r, [])
      ensures r == Answer(old(script), n) && script == Rest(old(script))
    {
      r := Answer(script, n);
      script := Rest(script);
      trace := Did(trace, Offer(d, buf[from..from + n]), r, []);
    }
  }

  /** The relay has made the due calls up to now, and `call` is due next. */
  ghost predicate At(t: Trace, cap: nat, call: Call) {
    Follows(t, cap) && !Over(t) && Fair(t) && Due(t, cap) == call
  }

  /** A write that was due leaves the rest of the offer due, or the call after it. */
  lemma WriteStep(t: Trace, cap: nat, d: Direction, offer: seq<byte>, r: Reply)
    requires At(t, cap, Offer(d, offer)) && offer != [] && CountOf(r) <= |offer|
    ensures var t' := Did(t, Offer(d, offer), r, []);
            && Follows(t', cap)
            && if Over(t') then !r.Count? || (d == Down && r.n == 0)
               else (r.Count? || d == Up) && r != Error
                    && At(t', cap, AfterOffer(d, offer[CountOf(r)..], cap))
  {
  }

  function Offer(d: Direction, offer: seq<byte>): Call {
    if d == Up then ChannelWrite(offer) else Send(offer)
  }

  /** What is due when `left` has not been taken. */
  function AfterOffer(d: Direction, left: seq<byte>, cap: nat): Call {
    if left != [] then Offer(d, left) else if d == Up then ChannelRead(cap) else AskEof
  }

  lemma OneMoreOut(t: Trace, d: Direction, out: seq<byte>, buf: seq<byte>, wr: nat, len: nat, r: Reply)
    requires wr <= len <= |buf| && CountOf(r) <= len - wr && Out(t, d) == out + buf[..wr]
    ensures Out(Did(t, Offer(d, buf[wr..len]), r, []), d) == out + buf[..wr + CountOf(r)]
  {
    assert buf[wr..len][..CountOf(r)] == buf[wr..wr + CountOf(r)];
    ExtendPrefix(out, buf, wr, wr + CountOf(r));
  }

  /** Of `buf[..len]` the first `wr` bytes have been passed on, after `out`, and the rest is due. */
  ghost predicate Passing(t: Trace, cap: nat, d: Direction, out: seq<byte>, buf: seq<byte>, wr: nat, len: nat) {
    && wr <= len <= |buf| && Out(t, d) == out + buf[..wr]
    && At(t, cap, AfterOffer(d, buf[wr..len], cap))
  }

  lemma PassStep(t: Trace, cap: nat, d: Direction, out: seq<byte>, buf: seq<byte>, wr: nat, len: nat, r: Reply)
    requires Passing(t, cap, d, out, buf, wr, len) && wr < len && CountOf(r) <= len - wr
    ensures var t', stops := Did(t, Offer(d, buf[wr..len]), r, []), if d == Up then r == Error else CountOf(r) == 0;
            && Follows(t', cap) && Out(t', d) == out + buf[..wr + CountOf(r)] && (Over(t') <==> stops)
            && (!stops ==> Passing(t', cap, d, out, buf, wr + CountOf(r), len))
  {
    WriteStep(t, cap, d, buf[wr..len], r);
    OneMoreOut(t, d, out, buf, wr, len, r);
    assert buf[wr..len][CountOf(r)..] == buf[wr + CountOf(r)..len];
  }

  /** One write of what is left. */
  method PassSome(link: Link, d: Direction, buf: array<byte>, wr: nat, len: nat,
                  ghost out: seq<byte>, ghost all: seq<byte>)
    returns (i: Reply)
    requires link.Valid() && buf[..] == all && wr < len && Passing(link.trace, buf.Length, d, out, all, wr, len)
    modifies link
    ensures link.Valid() && i == Answer(old(link.script), len - wr) && link.script == Rest(old(link.script))
    ensures Follows(link.trace, buf.Length) && Out(link.trace, d) == out + all[..wr + CountOf(i)]
    ensures Over(link.trace) <==> if d == Up then i == Error else CountOf(i) == 0
    ensures !Over(link.trace) ==> Passing(link.trace, buf.Length, d, out, all, wr + CountOf(i), len)
  {
    ghost var t := link.trace;
    var n := len - wr;
    assert wr + n == len;
    i := link.Write(d, buf, wr, n);
    PassStep(t, buf.Length, d, out, all, wr, len, i);
  }

  lemma AllPassed(t: Trace, cap: nat, d: Direction, out: seq<byte>, buf: seq<byte>, len: nat)
    requires Passing(t, cap, d, out, buf, len, len)
    ensures At(t, cap, AfterOffer(d, [], cap))
  {
    assert buf[len..len] == [];
  }

  /** Passes `buf[..len]` on to the channel. False means shut down. All is passed on if the replies are good
      for it up to the first error, whatever EAGAIN replies there are among them. */
  method PassUp(link: Link, buf: array<byte>, len: nat) returns (ok: bool)
    requires link.Valid() && 0 < len <= buf.Length && At(link.trace, buf.Length, Offer(Up, buf[..len]))
    modifies link
    ensures link.Valid()
    ensures if ok then At(link.trace, buf.Length, ChannelRead(buf.Length))
            else Follows(link.trace, buf.Length) && Over(link.trace)
    ensures ok <==> len <= Supply(old(link.script))
    ensures Out(link.trace, Up) == old(Out(link.trace, Up)) + buf[..Min(len, Supply(old(link.script)))]
    ensures |link.script| <= |old(link.script)| && (ok ==> |link.script| < |old(link.script)|)
  {
    ghost var all, out, supply := buf[..], Out(link.trace, Up), Supply(link.script);
    assert buf[..len] == all[0..len] && out + all[..0] == out;
    var wr := 0;
    while wr < len
      invariant link.Valid() && 0 <= wr <= len && |link.script| <= |old(link.script)| && buf[..] == all
      invariant Passing(link.trace, buf.Length, Up, out, all, wr, len)
      invariant if wr < len then wr + Supply(link.script) == supply else len <= supply
      invariant wr > 0 ==> |link.script| < |old(link.script)|
      decreases |link.script|, len - wr
    {
      SupplyStep(link.script, len - wr);
      var i := PassSome(link, Up, buf, wr, len, out, all);
      if i == Again {
        continue;
      }
      if !i.Count? {
        return false;
      }
      wr := wr + i.n;
    }
    AllPassed(link.trace, buf.Length, Up, out, all, len);
    return true;
  }

  /** Passes `buf[..len]` on to the socket. False means shut down. Here EAGAIN and zero end it. */
  method PassDown(link: Link, buf: array<byte>, len: nat) returns (ok: bool)
    requires link.Valid() && len <= buf.Length
    requires At(link.trace, buf.Length, AfterOffer(Down, buf[..len], buf.Length))
    modifies link
    ensures link.Valid()
    ensures if ok then At(link.trace, buf.Length, AskEof)
            else Follows(link.trace, buf.Length) && Over(link.trace)
    ensures ok <==> len <= Running(old(link.script))
    ensures Out(link.trace, Down) == old(Out(link.trace, Down)) + buf[..Min(len, Running(old(link.script)))]
    ensures |link.script| <= |old(link.script)|
  {
    ghost var all, out, running := buf[..], Out(link.trace, Down), Running(link.script);
    assert buf[..len] == all[0..len] && out + all[..0] == out;
    var wr := 0;
    while wr < len
      invariant link.Valid() && 0 <= wr <= len && |link.script| <= |old(link.script)| && buf[..] == all
      invariant Passing(link.trace, buf.Length, Down, out, all, wr, len)
      invariant if wr < len then wr + Running(link.script) == running else len <= running
    {
      RunningStep(link.script, len - wr);
      var i := PassSome(link, Down, buf, wr, len, out, all);
      if !i.Count? || i.n <= 0 {
        return false;
      }
      wr := wr + i.n;
    }
    AllPassed(link.trace, buf.Length, Down, out, all, len);
    return true;
  }

  /** The inner loop: reads the channel, and passes on what it brings, until it would block. False means
      shut down. */
  method PassAllDown(link: Link, buf: array<byte>) returns (ok: bool)
    requires link.Valid() && At(link.trace, buf.Length, ChannelRead(buf.Length))
    modifies link, buf
    ensures link.Valid() && |link.script| <= |old(link.script)|
    ensures if ok then At(link.trace, buf.Length, Poll)
            else Follows(link.trace, buf.Length) && Over(link.trace)
  {
    while true
      invariant link.Valid() && At(link.trace, buf.Length, ChannelRead(buf.Length))
      invariant |link.script| <= |old(link.script)|
      decreases |link.script|
    {
      var len := link.Read(Down, buf);
      if len == Again {
        return true;
      } else if !len.Count? {
        return false;
      }
      ok := PassDown(link, buf, len.n);
      if !ok {
        return;
      }
      var eof := link.Ask(AskEof);
      if eof != Count(0) {
        return false;
      }
    }
  }

  /** The main loop. It makes the due calls, and nothing else, until a reply ends it. */
  method Forward(link: Link, buf: array<byte>)
    requires link.Valid() && link.trace == Begin
    modifies link, buf
    ensures link.Valid() && Follows(link.trace, buf.Length) && Over(link.trace)
  {
    while true
      invariant link.Valid() && At(link.trace, buf.Length, Poll)
      decreases |link.script|
    {
      var rc := link.Ask(Poll);
      if !rc.Count? {
        return;
      }
      if rc.n > 0 {
        var len := link.Read(Up, buf);
        if !len.Count? {
          return;
        } else if len.n == 0 {
          return;
        }
        var ok := PassUp(link, buf, len.n);
        if !ok {
          return;
        }
      }
      var ok := PassAllDown(link, buf);
      if !ok {
        return;
      }
    }
  }
}
