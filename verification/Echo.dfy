/** The stress test of `ssh2_echo.c`: a poll-driven loop sends a fixed number of bytes to a remote
    `cat`, reads the echo into the very buffer it sends from, and compares the totals at the end. */
module Echo {
  import opened Wire

  const A: byte := 65

  // ----- the connection and the remote `cat`

  /** The bytes on the way to `cat`, the echo on the way back, the echo that has arrived and has not
      been read; whether EOF has been sent, whether `cat` has closed, and whether the close has
      arrived. */
  datatype World = World(toCat: seq<byte>, returning: seq<byte>, unread: seq<byte>,
                         eof: bool, closed: bool, seen: bool)

  const QUIET := World([], [], [], false, false, false)

  /** What happens there before a call: how many bytes are echoed and how many arrive, and whether `cat`
      closes and the close arrives, if they can. */
  datatype Move = Move(echo: nat, close: bool, arrive: nat, deliver: bool)

  /** `cat` closes only when EOF has come and everything has been echoed, and echoes nothing after that.
      The close arrives behind the bytes that were sent before it. */
  function Moved(w: World, m: Move): World {
    var n := if w.closed then 0 else Min(m.echo, |w.toCat|);
    var closed := w.closed || (m.close && w.eof && n == |w.toCat|);
    var back := w.returning + w.toCat[..n];
    var k := Min(m.arrive, |back|);
    World(w.toCat[n..], back[k..], w.unread + back[..k], w.eof, closed,
          w.seen || (m.deliver && closed && k == |back|))
  }

  /** What a poll reports. */
  datatype Events = Events(readable: bool, writable: bool, closed: bool) | TimeOut

  /** How a poll looks at it. It may time out, it may call the channel readable without cause, and it
      may hide bytes that have arrived. */
  datatype Look = Look(timeOut: bool, spurious: bool, writable: bool, hide: bool)

  function Report(w: World, wantOut: bool, look: Look): Events {
    if look.timeOut then TimeOut
    else Events((w.unread != [] && !look.hide) || look.spurious, wantOut && look.writable, w.seen)
  }

  datatype Call =
    | Poll(wantOut: bool, look: Look, events: Events)
    | Read(data: seq<byte>)
    | Write(offer: seq<byte>)
    | SendEof

  function Called(w: World, call: Call, reply: Reply): World {
    match call
    case Poll(_, _, _) => w
    case Read(data) => w.(unread := w.unread[Min(|data|, |w.unread|)..])
    case Write(offer) => w.(toCat := w.toCat + offer[..Min(CountOf(reply), |offer|)])
    case SendEof => w.(eof := w.eof || reply.Count?)
  }

  // ----- the loop

  /** The calls so far, last one outermost, and what happened before each. */
  datatype Trace = Begin | Did(before: Trace, move: Move, call: Call, reply: Reply)

  /** The bytes the channel has taken. */
  ghost function Sent(t: Trace): seq<byte> {
    match t
    case Begin => []
    case Did(before, _, call, reply) =>
      if call.Write? then Sent(before) + call.offer[..Min(CountOf(reply), |call.offer|)] else Sent(before)
  }

  /** The bytes read back. */
  ghost function Got(t: Trace): seq<byte> {
    match t
    case Begin => []
    case Did(before, _, call, _) => if call.Read? then Got(before) + call.data else Got(before)
  }

  /** EOF has been accepted. */
  ghost predicate EofSent(t: Trace) {
    t.Did? && (EofSent(t.before) || (t.call.SendEof? && t.reply.Count?))
  }

  ghost function Now(t: Trace): World {
    match t
    case Begin => QUIET
    case Did(before, move, call, reply) => Called(Moved(Now(before), move), call, reply)
  }

  /** Reads get the bytes that have arrived, and polls report what is there. */
  ghost predicate Real(t: Trace) {
    t.Did? ==>
      && Real(t.before)
      && var w := Moved(Now(t.before), t.move);
         match t.call
         case Read(data) => data <= w.unread
         case Poll(wantOut, look, events) => events == Report(w, wantOut, look)
         case _ => true
  }

  datatype Due = DuePoll | DueRead | DueWrite | Failed | Finished

  /** What the loop does next. */
  ghost function WhatIsDue(t: Trace): Due {
    if t.Begin? then DuePoll
    else match t.call
      case Poll(_, _, TimeOut) => DuePoll
      case Poll(_, _, Events(readable, writable, closed)) =>
        if readable then DueRead else if writable then DueWrite else if closed then Finished else DuePoll
      case Read(_) =>
        if t.reply == Error then Failed
        else if t.before.Did? && t.before.call.Poll? && t.before.call.events.Events?
                && t.before.call.events.writable then DueWrite
        else DuePoll
      case _ => if t.reply == Error then Failed else DuePoll
  }

  /** Every call is due. A poll asks for writability until EOF has been accepted, and is told of it
      only if it asks. When the channel is writable, the rest of the bytes are offered, as far as the
      buffer holds them, and EOF when there are none left. */
  ghost predicate Follows(t: Trace, bufsize: nat, totsize: nat) {
    match t
    case Begin => true
    case Did(before, _, call, reply) =>
      && Follows(before, bufsize, totsize)
      && match call
         case Poll(wantOut, _, events) =>
           && WhatIsDue(before) == DuePoll && wantOut == !EofSent(before)
           && (events.Events? && events.writable ==> wantOut)
         case Read(data) => WhatIsDue(before) == DueRead && |data| == CountOf(reply) <= bufsize
         case Write(offer) =>
           && WhatIsDue(before) == DueWrite && |Sent(before)| < totsize
           && |offer| == Min(totsize - |Sent(before)|, bufsize) && CountOf(reply) <= |offer|
           && forall i :: 0 <= i < |offer| ==> offer[i] == A
         case SendEof => WhatIsDue(before) == DueWrite && |Sent(before)| == totsize
  }

  // ----- what follows

  /** The two ends. A call fails that reports an error which is not EAGAIN, be it a read, a write or the
      sending of EOF; and the loop is left after a poll that reports the close and nothing else. */
  lemma WhenItEnds(t: Trace)
    ensures WhatIsDue(t) == Failed <==> t.Did? && !t.call.Poll? && t.reply == Error
    ensures WhatIsDue(t) == Finished <==> t.Did? && t.call.Poll? && t.call.events == Events(false, false, true)
  {
  }

  /** The poll has been served by the call after it, or the two calls: a read if it has reported the channel
      readable, then a write or EOF if it has reported it writable. */
  ghost predicate Served(t: Trace) {
    t.Did? &&
    match t.call
    case Poll(_, _, events) => events == TimeOut || events == Events(false, false, false)
    case Read(_) => Reports(t.before, true, false)
    case _ =>
      Reports(t.before, false, true)
      || (t.before.Did? && t.before.call.Read? && Reports(t.before.before, true, true))
  }

  ghost predicate Reports(t: Trace, readable: bool, writable: bool) {
    && t.Did? && t.call.Poll? && t.call.events.Events?
    && t.call.events.readable == readable && t.call.events.writable == writable
  }

  /** There is no poll before the last one has been served, and none after an error or the end. */
  lemma PollsWhenServed(t: Trace, bufsize: nat, totsize: nat)
    requires Follows(t, bufsize, totsize) && t.Did? && t.call.Poll?
    ensures t.before.Begin? || (Served(t.before) && (t.before.call.Poll? || t.before.reply != Error))
  {
    if t.before.Did? {
      WhatIsServed(t.before, bufsize, totsize);
    }
  }

  lemma WhatIsServed(t: Trace, bufsize: nat, totsize: nat)
    requires Follows(t, bufsize, totsize) && t.Did? && WhatIsDue(t) == DuePoll
    ensures Served(t) && (t.call.Poll? || t.reply != Error)
  {
    if !t.call.Poll? {
      var before := t.before;
      assert Follows(before, bufsize, totsize);
      assert WhatIsDue(before) == if t.call.Read? then DueRead else DueWrite;
      if before.Did? && before.call.Read? {
        assert WhatIsDue(before.before) == DueRead;
      }
    }
  }

  /** A write offers all that is left, or fills the buffer. EOF is sent when nothing is left. */
  lemma OffersAllThatFits(t: Trace, bufsize: nat, totsize: nat)
    requires Follows(t, bufsize, totsize) && t.Did?
    ensures t.call.Write? ==>
              |t.call.offer| <= bufsize && |Sent(t.before)| + |t.call.offer| <= totsize
              && (|t.call.offer| == bufsize || |Sent(t.before)| + |t.call.offer| == totsize)
    ensures t.call.SendEof? ==> |Sent(t.before)| == totsize
    ensures t.call.Poll? ==> (t.call.wantOut <==> !EofSent(t.before))
  {
    SendsOnlyAs(t.before, bufsize, totsize);
  }

  /** The letter that is sent. */
  lemma TheLetterIsA()
    ensures A as int == 'A' as int
  {
  }

  /** In every state: only 'A' has been sent, no more than `totsize` bytes of it, and EOF only after
      all of them. */
  lemma {:induction false} SendsOnlyAs(t: Trace, bufsize: nat, totsize: nat)
    requires Follows(t, bufsize, totsize)
    ensures |Sent(t)| <= totsize && forall i :: 0 <= i < |Sent(t)| ==> Sent(t)[i] == A
    ensures EofSent(t) ==> |Sent(t)| == totsize
    ensures WhatIsDue(t) == DueWrite ==> !EofSent(t)
  {
    if t.Did? {
      SendsOnlyAs(t.before, bufsize, totsize);
      if t.call.Read? && WhatIsDue(t) == DueWrite {
        assert t.before.Did? && t.before.call.Poll? && t.before.call.wantOut;
      }
    }
  }

  /** Nothing is written after EOF, and EOF is not sent twice. */
  lemma NothingAfterEof(t: Trace, bufsize: nat, totsize: nat)
    requires Follows(t, bufsize, totsize) && t.Did? && (t.call.Write? || t.call.SendEof?)
    ensures !EofSent(t.before)
  {
    SendsOnlyAs(t.before, bufsize, totsize);
  }

  /** The bytes that have been sent and not been read back, in order. */
  function Transit(w: World): seq<byte> {
    w.unread + w.returning + w.toCat
  }

  lemma TransitMoves(w: World, m: Move)
    ensures Transit(Moved(w, m)) == Transit(w)
  {
    var n := if w.closed then 0 else Min(m.echo, |w.toCat|);
    var back := w.returning + w.toCat[..n];
    var k := Min(m.arrive, |back|);
    assert back[..k] + back[k..] == back && w.toCat[..n] + w.toCat[n..] == w.toCat;
    Regroup(w.unread, back[..k], back[k..]);
    Regroup(w.unread, w.returning, w.toCat[..n]);
    Regroup(w.unread + w.returning, w.toCat[..n], w.toCat[n..]);
  }

  lemma TransitWrites(w: World, offer: seq<byte>, reply: Reply)
    ensures Transit(Called(w, Call.Write(offer), reply))
         == Transit(w) + offer[..Min(CountOf(reply), |offer|)]
  {
  }

  lemma TransitReads(w: World, data: seq<byte>, reply: Reply)
    requires data <= w.unread
    ensures Transit(w) == data + Transit(Called(w, Read(data), reply))
  {
    assert data + w.unread[|data|..] == w.unread;
  }

  lemma Regroup(a: seq<byte>, b: seq<byte>, c: seq<byte>)
    ensures a + (b + c) == (a + b) + c
  {
  }

  /** Nothing is lost, repeated or reordered: in every state, what was sent is what was read back,
      followed by what is in transit. */
  lemma {:induction false} EchoConservation(t: Trace)
    requires Real(t)
    ensures Sent(t) == Got(t) + Transit(Now(t))
  {
    if t.Did? {
      EchoConservation(t.before);
      TransitMoves(Now(t.before), t.move);
      StepConserves(t, Moved(Now(t.before), t.move));
    }
  }

  lemma StepConserves(t: Trace, w: World)
    requires t.Did? && Sent(t.before) == Got(t.before) + Transit(w) && (t.call.Read? ==> t.call.data <= w.unread)
    ensures Sent(t) == Got(t) + Transit(Called(w, t.call, t.reply))
  {
    match t.call
    case Write(offer) =>
      TransitWrites(w, offer, t.reply);
      Regroup(Got(t.before), Transit(w), offer[..Min(CountOf(t.reply), |offer|)]);
    case Read(data) =>
      TransitReads(w, data, t.reply);
      Regroup(Got(t.before), data, Transit(Called(w, t.call, t.reply)));
    case _ =>
  }

  /** Where the close has got to. */
  ghost predicate InOrder(w: World, eof: bool) {
    && w.eof == eof
    && (w.closed ==> w.eof && w.toCat == [])
    && (w.seen ==> w.closed && w.returning == [])
  }

  lemma MoveInOrder(w: World, m: Move)
    requires InOrder(w, w.eof)
    ensures InOrder(Moved(w, m), w.eof)
  {
  }

  /** When the close has arrived, the whole echo has. That is so because the loop sends nothing after
      EOF. */
  lemma {:induction false} CloseComesLast(t: Trace, bufsize: nat, totsize: nat)
    requires Follows(t, bufsize, totsize)
    ensures InOrder(Now(t), EofSent(t))
  {
    if t.Did? {
      CloseComesLast(t.before, bufsize, totsize);
      MoveInOrder(Now(t.before), t.move);
      if t.call.Write? {
        NothingAfterEof(t, bufsize, totsize);
      }
    }
  }

  /** The last poll has reported nothing to read, although there was. */
  ghost predicate HidesUnread(t: Trace) {
    t.Did? && t.call.Poll? && t.call.look.hide && Now(t).unread != []
  }

  /** When the loop is left, everything has been sent and echoed and has arrived. It has also been read,
      and the totals agree, exactly if the last poll hid nothing. */
  lemma FailsExactlyWhen(t: Trace, bufsize: nat, totsize: nat)
    requires Follows(t, bufsize, totsize) && Real(t) && WhatIsDue(t) == Finished
    ensures |Sent(t)| == totsize && Sent(t) == Got(t) + Now(t).unread
    ensures |Got(t)| != |Sent(t)| <==> HidesUnread(t)
  {
    SeenAtTheEnd(t);
    AllHasArrived(t, bufsize, totsize);
    EchoConservation(t);
  }

  /** Where the close has been seen, nothing is in transit but what can be read. */
  lemma AllHasArrived(t: Trace, bufsize: nat, totsize: nat)
    requires Follows(t, bufsize, totsize) && Now(t).seen
    ensures |Sent(t)| == totsize && Transit(Now(t)) == Now(t).unread
  {
    SendsOnlyAs(t, bufsize, totsize);
    CloseComesLast(t, bufsize, totsize);
    NothingUnderWay(Now(t));
  }

  lemma NothingUnderWay(w: World)
    requires w.returning == [] && w.toCat == []
    ensures Transit(w) == w.unread
  {
  }

  /** The loop is left after a poll that reports the close, and nothing to read. */
  lemma SeenAtTheEnd(t: Trace)
    requires Real(t) && WhatIsDue(t) == Finished
    ensures Now(t).seen && (Now(t).unread != [] <==> HidesUnread(t))
  {
    var w := Moved(Now(t.before), t.move);
    assert Now(t) == w;
    assert t.call.events == Report(w, t.call.wantOut, t.call.look);
  }

  /** A run on which the totals differ: one byte, which arrives together with the close, and a poll that
      hides it. */
  lemma UnreportedBytesAreMissed(bufsize: nat) returns (t: Trace)
    requires 0 < bufsize
    ensures Follows(t, bufsize, 1) && Real(t) && WhatIsDue(t) == Finished && HidesUnread(t)
  {
    var before := EofAccepted(bufsize);
    var look := Look(false, false, true, true);
    t := Did(before, Move(1, true, 1, true), Poll(false, look, Events(false, false, true)), Count(0));
    assert Moved(Now(before), t.move) == World([], [], [A], true, true, true);
  }

  lemma EofAccepted(bufsize: nat) returns (t: Trace)
    requires 0 < bufsize
    ensures Follows(t, bufsize, 1) && Real(t) && WhatIsDue(t) == DuePoll && EofSent(t)
    ensures Now(t) == QUIET.(toCat := [A], eof := true)
  {
    var sent := OneByteSent(bufsize);
    var polled := PollWritable(sent, bufsize);
    t := Did(polled, STILL, SendEof, Count(0));
    assert Moved(Now(polled), STILL) == Now(polled);
  }

  lemma OneByteSent(bufsize: nat) returns (t: Trace)
    requires 0 < bufsize
    ensures Follows(t, bufsize, 1) && Real(t) && WhatIsDue(t) == DuePoll
    ensures Now(t) == QUIET.(toCat := [A]) && |Sent(t)| == 1 && !EofSent(t)
  {
    var polled := PollWritable(Begin, bufsize);
    t := Did(polled, STILL, Call.Write([A]), Count(1));
    assert Moved(QUIET, STILL) == QUIET;
    assert Sent(t) == [A];
  }

  const STILL := Move(0, false, 0, false)

  lemma PollWritable(before: Trace, bufsize: nat) returns (t: Trace)
    requires Follows(before, bufsize, 1) && Real(before) && WhatIsDue(before) == DuePoll && !EofSent(before)
    requires Now(before) in {QUIET, QUIET.(toCat := [A])}
    ensures Follows(t, bufsize, 1) && Real(t) && WhatIsDue(t) == DueWrite && !EofSent(t)
    ensures Now(t) == Now(before) && Sent(t) == Sent(before)
  {
    var look := Look(false, false, true, false);
    t := Did(before, STILL, Poll(true, look, Events(false, true, false)), Count(0));
    assert Moved(Now(before), STILL) == Now(before);
  }

  // ----- the program

  /** What is fixed in advance for one call. */
  datatype Turn = Turn(move: Move, look: Look, reply: Reply)

  const LOST := Turn(Move(0, false, 0, false), Look(true, false, false, false), Error)

  ghost predicate From<T(!new)>(script: seq<T>, whole: seq<T>) {
    |script| <= |whole| && forall x :: x in script ==> x in whole
  }

  ghost predicate Observed(w: World, t: Trace) {
    w == Now(t) && Real(t)
  }

  lemma PollIsReal(w: World, t: Trace, turn: Turn, wantOut: bool)
    requires Observed(w, t)
    ensures var w' := Moved(w, turn.move);
            var events := Report(w', wantOut, turn.look);
            && Observed(w', Did(t, turn.move, Poll(wantOut, turn.look, events), turn.reply))
            && (events.Events? && events.writable ==> wantOut)
  {
  }

  lemma CallIsReal(w: World, t: Trace, move: Move, call: Call, r: Reply)
    requires Observed(w, t) && !call.Poll? && (call.Read? ==> call.data <= Moved(w, move).unread)
    ensures Observed(Called(Moved(w, move), call, r), Did(t, move, call, r))
  {
  }

  /** The channel and the `cat` behind it. */
  class Cat {
    var script: seq<Turn>
    var world: World
    ghost var trace: Trace

    constructor (script: seq<Turn>)
      ensures Valid() && trace == Begin && this.script == script
    {
      this.script, world, trace := script, QUIET, Begin;
    }

    ghost predicate Valid()
      reads this
    {
      Observed(world, trace)
    }

    /** The next turn. Without one the connection is lost. */
    method NextTurn() returns (turn: Turn)
      modifies this`script
      ensures turn == if old(script) == [] then LOST else old(script)[0]
      ensures script == if old(script) == [] then [] else old(script)[1..]
    {
      turn := LOST;
      if script != [] {
        turn, script := script[0], script[1..];
      }
    }

    method PollOnce(wantOut: bool) returns (events: Events)
      requires Valid() && script != []
      modifies this
      ensures Valid() && script == old(script)[1..]
      ensures trace.Did? && trace.before == old(trace) && trace.call == Poll(wantOut, old(script)[0].look, events)
      ensures events.Events? && events.writable ==> wantOut
    {
      var turn := script[0];
      PollIsReal(world, trace, turn, wantOut);
      script := script[1..];
      world := Moved(world, turn.move);
      events := Report(world, wantOut, turn.look);
      trace := Did(trace, turn.move, Poll(wantOut, turn.look, events), turn.reply);
    }

    method ReadInto(buf: array<byte>) returns (r: Reply)
      requires Valid()
      modifies this, buf
      ensures Valid() && From(script, old(script))
      ensures CountOf(r) <= buf.Length
      ensures trace.Did? && trace.before == old(trace) && trace.call == Read(buf[..CountOf(r)]) && trace.reply == r
      ensures forall i :: CountOf(r) <= i < buf.Length ==> buf[i] == old(buf[i])
    {
      var turn := NextTurn();
      var unread := Moved(world, turn.move).unread;
      r := Answer([turn.reply], Min(buf.Length, |unread|));
      var data := unread[..CountOf(r)];
      forall i | 0 <= i < |data| {
        buf[i] := data[i];
      }
      assert buf[..CountOf(r)] == data;
      Record(turn.move, Read(data), r);
    }

    method WriteFrom(buf: array<byte>, n: nat) returns (r: Reply)
      requires Valid() && n <= buf.Length
      modifies this
      ensures Valid() && From(script, old(script))
      ensures CountOf(r) <= n
      ensures trace.Did? && trace.before == old(trace) && trace.call == Call.Write(buf[..n]) && trace.reply == r
    {
      var turn := NextTurn();
      r := Answer([turn.reply], n);
      Record(turn.move, Call.Write(buf[..n]), r);
    }

    method SendEofOnce() returns (r: Reply)
      requires Valid()
      modifies this
      ensures Valid() && From(script, old(script))
      ensures trace.Did? && trace.before == old(trace) && trace.call == SendEof && trace.reply == r
    {
      var turn := NextTurn();
      r := turn.reply;
      Record(turn.move, SendEof, r);
    }

    /** The call changes the world, and is recorded. */
    method Record(move: Move, call: Call, r: Reply)
      requires Valid() && !call.Poll? && (call.Read? ==> call.data <= Moved(world, move).unread)
      modifies this`world, this`trace
      ensures Valid() && trace == Did(old(trace), move, call, r)
    {
      CallIsReal(world, trace, move, call, r);
      world := Called(Moved(world, move), call, r);
      trace := Did(trace, move, call, r);
    }
  }

  /** How a run ends: with equal totals, with the failure message, with an error, or not at all for
      as long as it is observed. */
  datatype Outcome = Equal | Fail | CallFailed | StillRunning

  /** The variables of the loop agree with the calls made so far, and the buffer holds nothing but
      'A', although the echo has been read into it. */
  ghost predicate InStep(cat: Cat, buffer: array<byte>, totsize: nat, totwritten: nat, totread: nat, wantOut: bool)
    reads cat, buffer
  {
    && cat.Valid() && Follows(cat.trace, buffer.Length, totsize)
    && totwritten == |Sent(cat.trace)| && totread == |Got(cat.trace)| && wantOut == !EofSent(cat.trace)
    && forall i :: 0 <= i < buffer.Length ==> buffer[i] == A
  }

  /** The reading half of a turn. */
  method ReadTurn(cat: Cat, buffer: array<byte>, ghost totsize: nat, ghost totwritten: nat, totread: nat,
                  ghost wantOut: bool)
    returns (ok: bool, totread': nat)
    requires InStep(cat, buffer, totsize, totwritten, totread, wantOut) && WhatIsDue(cat.trace) == DueRead
    modifies cat, buffer
    ensures InStep(cat, buffer, totsize, totwritten, totread', wantOut) && From(cat.script, old(cat.script))
    ensures cat.trace.Did? && cat.trace.before == old(cat.trace) && cat.trace.call.Read?
    ensures ok <==> cat.trace.reply != Error
  {
    var n := cat.ReadInto(buffer);
    EchoIsOnlyAs(cat.trace, buffer.Length, totsize);
    assert forall i :: 0 <= i < CountOf(n) ==> buffer[i] == buffer[..CountOf(n)][i];
    totread' := if n.Count? then totread + n.n else totread;
    ok := n != Error;
  }

  /** The writing half: the next bytes, or EOF when all have been taken. */
  method WriteTurn(cat: Cat, buffer: array<byte>, totsize: nat, totwritten: nat, ghost totread: nat, wantOut: bool)
    returns (ok: bool, totwritten': nat, wantOut': bool)
    requires InStep(cat, buffer, totsize, totwritten, totread, wantOut) && WhatIsDue(cat.trace) == DueWrite
    modifies cat
    ensures InStep(cat, buffer, totsize, totwritten', totread, wantOut') && From(cat.script, old(cat.script))
    ensures WhatIsDue(cat.trace) == if ok then DuePoll else Failed
    ensures cat.trace.Did? && cat.trace.before == old(cat.trace)
    ensures if totwritten < totsize then cat.trace.call.Write? else cat.trace.call.SendEof?
    ensures ok <==> cat.trace.reply != Error
  {
    totwritten', wantOut' := totwritten, wantOut;
    SendsOnlyAs(cat.trace, buffer.Length, totsize);
    if totwritten < totsize {
      var left, bufsize := totsize - totwritten, buffer.Length;
      var size := if left < bufsize then left else bufsize;
      var n := cat.WriteFrom(buffer, size);
      if n.Count? {
        totwritten' := totwritten + n.n;
      }
      ok := n != Error;
    } else {
      var rc := cat.SendEofOnce();
      if rc.Count? {
        wantOut' := false;
      }
      ok := rc != Error;
    }
  }

  /** The last call is the poll of this turn. */
  ghost predicate LooksAs(t: Trace, turn: Turn) {
    t.Did? && t.call.Poll? && t.call.look == turn.look
  }

  /** The loop. It ends at a failed call, or when it is to run no more, or when there is nothing more to
      observe. */
  method EchoLoop(cat: Cat, buffer: array<byte>, totsize: nat)
    returns (failed: bool, running: bool, totwritten: nat, totread: nat)
    requires cat.Valid() && cat.trace == Begin && forall i :: 0 <= i < buffer.Length ==> buffer[i] == A
    modifies cat, buffer
    ensures cat.Valid() && Follows(cat.trace, buffer.Length, totsize)
    ensures totwritten == |Sent(cat.trace)| && totread == |Got(cat.trace)|
    ensures WhatIsDue(cat.trace) == if failed then Failed else if running then DuePoll else Finished
    ensures !failed && running ==> cat.script == []
    ensures !running ==> exists turn :: turn in old(cat.script) && LooksAs(cat.trace, turn)
  {
    totwritten, totread := 0, 0;
    var wantOut := true;
    failed, running := false, true;
    while running && cat.script != []
      invariant InStep(cat, buffer, totsize, totwritten, totread, wantOut)
      invariant WhatIsDue(cat.trace) == if running then DuePoll else Finished
      invariant From(cat.script, old(cat.script))
      invariant !running ==> exists turn :: turn in old(cat.script) && LooksAs(cat.trace, turn)
      decreases |cat.script|
    {
      ghost var turn := cat.script[0];
      var events := cat.PollOnce(wantOut);
      if events.TimeOut? {
        continue;
      }
      var act, ok := 0, true;
      if events.readable {
        ok, totread := ReadTurn(cat, buffer, totsize, totwritten, totread, wantOut);
        act := act + 1;
        if !ok {
          return true, true, totwritten, totread;
        }
      }
      if events.writable {
        act := act + 1;
        ok, totwritten, wantOut := WriteTurn(cat, buffer, totsize, totwritten, totread, wantOut);
        if !ok {
          return true, true, totwritten, totread;
        }
      }
      if events.closed {
        if act == 0 {
          assert LooksAs(cat.trace, turn) && turn in old(cat.script);
          running := false;
        }
      }
    }
  }

  /** The test: the loop and the comparison after it. The failure message comes exactly if a poll that
      reports the close hides bytes that have arrived, and so not at all if no poll hides any. */
  method EchoTest(cat: Cat, buffer: array<byte>, totsize: nat)
    returns (outcome: Outcome, totwritten: nat, totread: nat)
    requires cat.Valid() && cat.trace == Begin && 0 < buffer.Length
    modifies cat, buffer
    ensures cat.Valid() && Follows(cat.trace, buffer.Length, totsize)
    ensures totwritten == |Sent(cat.trace)| && totread == |Got(cat.trace)|
    ensures outcome == Equal ==> WhatIsDue(cat.trace) == Finished && totread == totwritten == totsize
    ensures outcome == Fail <==> WhatIsDue(cat.trace) == Finished && HidesUnread(cat.trace)
    ensures outcome == Fail ==> exists turn :: turn in old(cat.script) && turn.look.hide
    ensures outcome == CallFailed <==> cat.trace.Did? && !cat.trace.call.Poll? && cat.trace.reply == Error
    ensures outcome == Equal || outcome == Fail <==>
              cat.trace.Did? && cat.trace.call.Poll? && cat.trace.call.events == Events(false, false, true)
    ensures outcome == StillRunning ==> cat.script == [] && WhatIsDue(cat.trace) == DuePoll
  {
    forall i | 0 <= i < buffer.Length {
      buffer[i] := A;
    }
    var failed, running;
    failed, running, totwritten, totread := EchoLoop(cat, buffer, totsize);
    WhenItEnds(cat.trace);
    if failed {
      return CallFailed, totwritten, totread;
    }
    if running {
      return StillRunning, totwritten, totread;
    }
    FailsExactlyWhen(cat.trace, buffer.Length, totsize);
    outcome := if totwritten != totread then Fail else Equal;
  }

  /** What a read brings back is 'A' again. */
  lemma EchoIsOnlyAs(t: Trace, bufsize: nat, totsize: nat)
    requires Follows(t, bufsize, totsize) && Real(t) && t.Did? && t.call.Read?
    ensures forall i :: 0 <= i < |t.call.data| ==> t.call.data[i] == A
  {
    var got, data, rest := Got(t.before), t.call.data, Transit(Now(t));
    SendsOnlyAs(t, bufsize, totsize);
    EchoConservation(t);
    assert Sent(t) == got + data + rest;
    forall i | 0 <= i < |data| ensures data[i] == A {
      assert data[i] == (got + data + rest)[|got| + i];
    }
  }
}
