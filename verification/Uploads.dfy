/** The file uploads: the sliding buffer of `sftp_write_sliding.c` and the chunk-and-drain loops
    of `sftp_write_nonblock.c` and `scp_write_nonblock.c`.

    Both are measured against one machine that has no buffer at all: a position in the file and,
    for each position, the end of the window offered to the peer. */
module Uploads {
  import opened Wire

  /** `Slide` refills the window after every write, `Chunk` only when it is used up. */
  datatype Policy = Slide | Chunk

  /** The end of the chunk that holds byte `at`, when the file is cut into chunks of `cap` bytes. */
  function ChunkTop(cap: nat, at: nat): (top: nat)
    requires 0 < cap
    ensures at < top <= at + cap
  {
    if at < cap then cap else cap + ChunkTop(cap, at - cap)
  }

  /** The end of the window that is offered when `at` bytes have been delivered. */
  function WindowEnd(p: Policy, cap: nat, size: nat, at: nat): nat
    requires 0 < cap
  {
    match p
    case Slide => Min(at + cap, size)
    case Chunk => Min(ChunkTop(cap, at), size)
  }

  /** Where an upload stops, whether it stopped because the file was used up, and the replies
      it left unread. */
  datatype Outcome = Outcome(at: nat, complete: bool, rest: seq<Reply>)

  /** The replies that end an upload early. The sliding loop goes on only while `rc > 0`, so for it
      a count of zero is one of them; the chunked loops retry. */
  predicate Stops(p: Policy, r: Reply) {
    r == Error || (p == Slide && r == Count(0))
  }

  /** The upload machine. */
  function Run(p: Policy, cap: nat, size: nat, at: nat, script: seq<Reply>): Outcome
    requires 0 < cap && at <= size
    decreases |script|
  {
    if at == size then Outcome(at, true, script)
    else if script == [] then Outcome(at, false, [])
    else
      match script[0]
      case Error => Outcome(at, false, script[1..])
      case Again => Run(p, cap, size, at, script[1..])
      case Count(k) =>
        WindowOpen(p, cap, size, at);
        var n := Min(k, WindowEnd(p, cap, size, at) - at);
        if p == Slide && n == 0 then Outcome(at, false, script[1..])
        else Run(p, cap, size, at + n, script[1..])
  }

  ghost predicate OccursAt(bytes: seq<byte>, file: seq<byte>, at: nat) {
    at + |bytes| <= |file| && forall i :: 0 <= i < |bytes| ==> bytes[i] == file[at + i]
  }

  /** Every write offers the window at the position reached by the writes before it, is answered
      from the script, and none follows a reply that ends the upload. */
  ghost predicate Conforms(p: Policy, cap: nat, file: seq<byte>, h: History)
    requires 0 < cap
  {
    match h
    case Start(_) => true
    case Write(before, bytes, reply) =>
      && Conforms(p, cap, file, before) && !Stopped(p, before)
      && before.Taken() < |file|
      && before.Taken() <= WindowEnd(p, cap, |file|, before.Taken()) <= |file|
      && before.Taken() + |bytes| == WindowEnd(p, cap, |file|, before.Taken())
      && OccursAt(bytes, file, before.Taken())
      && reply == Answer(before.Script(), |bytes|)
  }

  ghost predicate Stopped(p: Policy, h: History) {
    h.Write? && Stops(p, h.reply)
  }

  /** A conforming history is a run of the machine. */
  lemma {:induction false} HistoryIsRun(p: Policy, cap: nat, file: seq<byte>, h: History)
    requires 0 < cap && Conforms(p, cap, file, h)
    ensures h.Taken() <= |file|
    ensures !Stopped(p, h) ==>
              Run(p, cap, |file|, 0, h.Initial()) == Run(p, cap, |file|, h.Taken(), h.Script())
    ensures Stopped(p, h) ==>
              Run(p, cap, |file|, 0, h.Initial()) == Outcome(h.Taken(), false, h.Script())
  {
    if h.Write? {
      HistoryIsRun(p, cap, file, h.before);
    }
  }

  /** A conforming history that has stopped, or has reached the end of the file, fixes the outcome. */
  lemma HistoryIsOutcome(p: Policy, cap: nat, file: seq<byte>, h: History)
    requires 0 < cap && Conforms(p, cap, file, h)
    requires Stopped(p, h) || h.Taken() == |file|
    ensures Run(p, cap, |file|, 0, h.Initial()) == Outcome(h.Taken(), !Stopped(p, h), h.Script())
    ensures Stopped(p, h) <==> h.Taken() < |file|
  {
    HistoryIsRun(p, cap, file, h);
    CompleteIffAllTaken(p, cap, |file|, 0, h.Initial());
  }

  /** A window is never empty before the end of the file, and holds at most `cap` bytes. */
  lemma WindowOpen(p: Policy, cap: nat, size: nat, at: nat)
    requires 0 < cap && at <= size
    ensures at <= WindowEnd(p, cap, size, at) <= size
    ensures WindowEnd(p, cap, size, at) <= at + cap
    ensures at < size ==> at < WindowEnd(p, cap, size, at)
  {
  }

  /** Within a chunk the window end stays where it is, and the next chunk begins there. */
  lemma {:induction false} SameChunk(cap: nat, base: nat, at: nat)
    requires 0 < cap && ChunkTop(cap, base) == base + cap && base <= at
    ensures at < base + cap ==> ChunkTop(cap, at) == base + cap
    ensures at == base + cap ==> ChunkTop(cap, at) == at + cap
    decreases base
  {
    if cap <= base {
      SameChunk(cap, base - cap, at - cap);
    }
  }

  /** The window of a chunk `base..base + len` of the file ends where the chunk ends. */
  lemma InChunk(cap: nat, size: nat, base: nat, len: nat, at: nat)
    requires 0 < cap && ChunkTop(cap, base) == base + cap && base + len == Min(base + cap, size)
    requires base <= at <= base + len
    ensures at < base + len ==> WindowEnd(Chunk, cap, size, at) == base + len
    ensures at == base + len < size ==> ChunkTop(cap, at) == at + cap
  {
    SameChunk(cap, base, at);
  }

  /** An outcome reports completion exactly when every byte was taken. */
  lemma {:induction false} CompleteIffAllTaken(p: Policy, cap: nat, size: nat, at: nat, script: seq<Reply>)
    requires 0 < cap && at <= size
    ensures var o := Run(p, cap, size, at, script);
            at <= o.at <= size && (o.complete <==> o.at == size)
    decreases |script|
  {
    if at < size && script != [] {
      WindowOpen(p, cap, size, at);
      var r := Answer(script, WindowEnd(p, cap, size, at) - at);
      CompleteIffAllTaken(p, cap, size, at + CountOf(r), Rest(script));
    }
  }

  /** How much the sliding upload delivers: as much as the replies are good for. */
  lemma {:induction false} SlidingDeliversExactly(cap: nat, size: nat, at: nat, script: seq<Reply>)
    requires 0 < cap && at <= size
    ensures Run(Slide, cap, size, at, script).at == at + Min(size - at, Flow(cap, script))
    decreases |script|
  {
    if at < size && script != [] && script[0] != Error && script[0] != Count(0) {
      WindowOpen(Slide, cap, size, at);
      var r := Answer(script, WindowEnd(Slide, cap, size, at) - at);
      SlidingDeliversExactly(cap, size, at + CountOf(r), script[1..]);
    }
  }

  lemma SlidingFinishesExactlyWhen(cap: nat, size: nat, script: seq<Reply>)
    requires 0 < cap
    ensures Run(Slide, cap, size, 0, script).complete <==> size <= Flow(cap, script)
  {
    SlidingDeliversExactly(cap, size, 0, script);
    CompleteIffAllTaken(Slide, cap, size, 0, script);
  }

  /** Whether the replies are good for `n` bytes before the first error, and the replies left then. */
  function Spend(n: nat, script: seq<Reply>): (bool, seq<Reply>)
    decreases |script|
  {
    if n == 0 then (true, script)
    else if script == [] || script[0] == Error then (false, [])
    else Spend(n - Min(CountOf(script[0]), n), script[1..])
  }

  lemma {:induction false} SpendMeans(n: nat, script: seq<Reply>)
    ensures Spend(n, script).0 <==> n <= Supply(script)
    decreases |script|
  {
    if n > 0 && script != [] && script[0] != Error {
      SpendMeans(n - Min(CountOf(script[0]), n), script[1..]);
    }
  }

  /** The replies are good for one chunk after the other. What a reply is good for beyond the end of a
      chunk is lost. */
  predicate GoodForChunks(cap: nat, size: nat, script: seq<Reply>)
    requires 0 < cap
    decreases size
  {
    var n := Min(cap, size);
    size == 0 || (Spend(n, script).0 && GoodForChunks(cap, size - n, Spend(n, script).1))
  }

  lemma {:induction false} OneChunk(cap: nat, size: nat, base: nat, len: nat, at: nat, script: seq<Reply>)
    requires 0 < cap && ChunkTop(cap, base) == base + cap && base + len == Min(base + cap, size)
    requires base <= at <= base + len
    ensures var (ok, rest) := Spend(base + len - at, script);
            Run(Chunk, cap, size, at, script).complete
            <==> ok && Run(Chunk, cap, size, base + len, rest).complete
    decreases |script|
  {
    if at < base + len && script != [] && script[0] != Error {
      InChunk(cap, size, base, len, at);
      OneChunk(cap, size, base, len, at + Min(CountOf(script[0]), base + len - at), script[1..]);
    }
  }

  lemma {:induction false} ChunkedFinishesFrom(cap: nat, size: nat, base: nat, script: seq<Reply>)
    requires 0 < cap && base <= size && (base == size || ChunkTop(cap, base) == base + cap)
    ensures Run(Chunk, cap, size, base, script).complete <==> GoodForChunks(cap, size - base, script)
    decreases size - base
  {
    if base < size {
      var len := Min(cap, size - base);
      OneChunk(cap, size, base, len, base, script);
      InChunk(cap, size, base, len, base + len);
      ChunkedFinishesFrom(cap, size, base + len, Spend(len, script).1);
    }
  }

  /** The chunked upload finishes exactly when the replies are good for its chunks, whatever the counts
      are and however many EAGAIN replies come in between. */
  lemma ChunkedFinishesExactlyWhen(cap: nat, size: nat, script: seq<Reply>)
    requires 0 < cap
    ensures Run(Chunk, cap, size, 0, script).complete <==> GoodForChunks(cap, size, script)
  {
    ChunkedFinishesFrom(cap, size, 0, script);
  }

  /** Nothing more is taken after the first count of zero, up to the first error. */
  predicate NothingAfterZero(script: seq<Reply>) {
    script == [] || script[0] == Error ||
    if script[0] == Count(0) then Supply(script[1..]) == 0 else NothingAfterZero(script[1..])
  }

  lemma {:induction false} NothingDelivered(p: Policy, cap: nat, size: nat, at: nat, script: seq<Reply>)
    requires 0 < cap && at <= size && Supply(script) == 0
    ensures Run(p, cap, size, at, script).at == at
    decreases |script|
  {
    if at < size && script != [] && script[0] != Error {
      WindowOpen(p, cap, size, at);
      NothingDelivered(p, cap, size, at, script[1..]);
    }
  }

  /** The same count moves the smaller window no further than the larger one. */
  lemma CountKeepsAhead(big: nat, small: nat, size: nat, ahead: nat, behind: nat, n: nat)
    requires 0 < small <= big && behind <= ahead < size
    ensures behind < WindowEnd(Chunk, small, size, behind) <= size
    ensures ahead < WindowEnd(Slide, big, size, ahead) <= size
    ensures behind + Min(n, WindowEnd(Chunk, small, size, behind) - behind)
         <= ahead + Min(n, WindowEnd(Slide, big, size, ahead) - ahead)
  {
  }

  lemma AfterCount(p: Policy, cap: nat, size: nat, at: nat, script: seq<Reply>)
    requires 0 < cap && at < size && script != [] && script[0].Count? && script[0].n > 0
    ensures at < WindowEnd(p, cap, size, at) <= size
    ensures Run(p, cap, size, at, script)
         == Run(p, cap, size, at + Min(script[0].n, WindowEnd(p, cap, size, at) - at), script[1..])
  {
    WindowOpen(p, cap, size, at);
  }

  lemma {:induction false} StaysAhead(big: nat, small: nat, size: nat, ahead: nat, behind: nat, script: seq<Reply>)
    requires 0 < small <= big && behind <= ahead <= size
    requires NothingAfterZero(script)
    ensures Run(Chunk, small, size, behind, script).at <= Run(Slide, big, size, ahead, script).at
    decreases |script|
  {
    if ahead == size || script == [] || script[0] == Error {
      CompleteIffAllTaken(Chunk, small, size, behind, script);
    } else if script[0] == Again {
      StaysAhead(big, small, size, ahead, behind, Rest(script));
    } else if script[0] == Count(0) {
      NothingDelivered(Chunk, small, size, behind, script);
      CompleteIffAllTaken(Slide, big, size, ahead, script);
    } else {
      var n := script[0].n;
      CountKeepsAhead(big, small, size, ahead, behind, n);
      AfterCount(Slide, big, size, ahead, script);
      AfterCount(Chunk, small, size, behind, script);
      StaysAhead(big, small, size, ahead + Min(n, WindowEnd(Slide, big, size, ahead) - ahead),
                 behind + Min(n, WindowEnd(Chunk, small, size, behind) - behind), Rest(script));
    }
  }

  /** The sliding upload has delivered at least as much as the chunked one, under the same replies and
      with a buffer that is at least as large. */
  ghost predicate NeverBehind(script: seq<Reply>) {
    forall big: nat, small: nat, size: nat | 0 < small <= big ::
      Run(Chunk, small, size, 0, script).at <= Run(Slide, big, size, 0, script).at
  }

  /** In a chunk that is larger than all counts together nothing is lost. */
  lemma {:induction false} LargeChunkDelivers(cap: nat, at: nat, script: seq<Reply>)
    requires at + Supply(script) < cap
    ensures Run(Chunk, cap, cap, at, script).at == at + Supply(script)
    decreases |script|
  {
    if script != [] && script[0] != Error {
      LargeChunkDelivers(cap, at + CountOf(script[0]), script[1..]);
    }
  }

  lemma {:induction false} ZeroCostsFlow(cap: nat, script: seq<Reply>)
    requires !NothingAfterZero(script)
    ensures Flow(cap, script) < Supply(script)
    decreases |script|
  {
    if script[0] != Count(0) {
      ZeroCostsFlow(cap, script[1..]);
    }
  }

  /** That is so for all sizes exactly when nothing is taken after a count of zero, which ends the sliding
      loop and not the other. */
  lemma NeverBehindExactlyWhen(script: seq<Reply>)
    ensures NeverBehind(script) <==> NothingAfterZero(script)
  {
    if NothingAfterZero(script) {
      forall big: nat, small: nat, size: nat | 0 < small <= big
        ensures Run(Chunk, small, size, 0, script).at <= Run(Slide, big, size, 0, script).at
      {
        StaysAhead(big, small, size, 0, 0, script);
      }
    } else {
      var cap := Supply(script) + 1;
      LargeChunkDelivers(cap, 0, script);
      SlidingDeliversExactly(cap, cap, 0, script);
      ZeroCostsFlow(cap, script);
      assert Run(Chunk, cap, cap, 0, script).at > Run(Slide, cap, cap, 0, script).at;
    }
  }

  /** Then it also finishes whenever the other does. */
  lemma FinishesIfTheOtherDoes(big: nat, small: nat, size: nat, script: seq<Reply>)
    requires 0 < small <= big && NothingAfterZero(script)
    ensures Run(Chunk, small, size, 0, script).complete ==> Run(Slide, big, size, 0, script).complete
  {
    StaysAhead(big, small, size, 0, 0, script);
    CompleteIffAllTaken(Chunk, small, size, 0, script);
    CompleteIffAllTaken(Slide, big, size, 0, script);
  }

  /** Two replies that show it, with any buffers. */
  lemma ZeroStopsOnlySliding(big: nat, small: nat)
    requires 0 < small <= big
    ensures var script := [Count(0), Count(1)];
            Run(Slide, big, 1, 0, script).at == 0 && Run(Chunk, small, 1, 0, script).at == 1
  {
    WindowOpen(Chunk, small, 1, 0);
    WindowOpen(Slide, big, 1, 0);
    var script := [Count(0), Count(1)];
    assert Rest(script) == [Count(1)] && Rest(Rest(script)) == [];
    assert Run(Chunk, small, 1, 0, Rest(script)).at == 1;
  }

  /** What the peer sees, without reference to the file: the next offer begins with the part of
      the last one that was not taken, and after EAGAIN it is the very same bytes. */
  ghost predicate Continues(h: History) {
    h.Write? && h.before.Write? ==>
      && Continues(h.before)
      && CountOf(h.before.reply) <= |h.before.bytes|
      && h.before.bytes[CountOf(h.before.reply)..] <= h.bytes
      && (h.before.reply == Again ==> h.bytes == h.before.bytes)
  }

  lemma {:induction false} OffersContinue(p: Policy, cap: nat, file: seq<byte>, h: History)
    requires 0 < cap && Conforms(p, cap, file, h)
    ensures Continues(h)
  {
    if h.Write? && h.before.Write? {
      OffersContinue(p, cap, file, h.before);
      ChunkTopMonotone(cap, h.before.before.Taken(), h.before.Taken());
    }
  }

  lemma {:induction false} ChunkTopMonotone(cap: nat, a: nat, b: nat)
    requires 0 < cap && a <= b
    ensures ChunkTop(cap, a) <= ChunkTop(cap, b)
    decreases a
  {
    if cap <= a {
      ChunkTopMonotone(cap, a - cap, b - cap);
    }
  }

  /** The first `at` bytes of the file have been delivered, by offers of whole windows. */
  ghost predicate Sent(p: Policy, cap: nat, file: seq<byte>, sink: Writer, at: nat)
    requires 0 < cap
    reads sink
  {
    SentSoFar(p, cap, file, sink.delivered, sink.history, at)
    && sink.history.Script() == sink.script && sink.history.Initial() == sink.initial
  }

  ghost predicate SentSoFar(p: Policy, cap: nat, file: seq<byte>, delivered: seq<byte>, h: History, at: nat)
    requires 0 < cap
  {
    delivered <= file && |delivered| == at && h.Taken() == at && Conforms(p, cap, file, h)
  }

  /** The buffer starts with the `len` bytes of the file from `base`. */
  ghost predicate Holds(mem: array<byte>, len: nat, file: seq<byte>, base: nat)
    reads mem
  {
    len <= mem.Length && base + len <= |file| && mem[..len] == file[base..base + len]
  }

  /** One write of the window `mem[from..len]`, where the buffer starts with the bytes of the file from
      `base`. */
  method WriteWindow(p: Policy, sink: Writer, mem: array<byte>, from: nat, len: nat,
                     ghost file: seq<byte>, ghost base: nat, ghost cap: nat) returns (rc: Reply)
    requires 0 < cap && from < len && Holds(mem, len, file, base)
    requires Sent(p, cap, file, sink, base + from) && !Stopped(p, sink.history)
    requires WindowEnd(p, cap, |file|, base + from) == base + len
    modifies sink
    ensures CountOf(rc) <= len - from && Sent(p, cap, file, sink, base + from + CountOf(rc))
    ensures Stopped(p, sink.history) <==> Stops(p, rc)
    ensures rc == Error || |sink.script| < |old(sink.script)|
  {
    ghost var h, bytes, m := sink.history, file[base + from..base + len], mem[..];
    assert m[..len] == mem[..len];
    var n := len - from;
    WindowBytes(m, len, file, base, from);
    assert m[from..from + n] == bytes;
    rc := sink.Write(mem, from, n);
    WindowPiece(m, len, file, base, from, CountOf(rc));
    assert sink.history == History.Write(h, bytes, rc);
    OfferIsSent(p, cap, file, old(sink.delivered), h, base + from, bytes, rc);
  }

  lemma WindowBytes(mem: seq<byte>, len: nat, file: seq<byte>, base: nat, from: nat)
    requires from <= len <= |mem| && base + len <= |file| && mem[..len] == file[base..base + len]
    ensures mem[from..len] == file[base + from..base + len]
  {
    assert mem[from..len] == mem[..len][from..];
    Join(file, base, base + from, base + len);
  }

  lemma WindowPiece(mem: seq<byte>, len: nat, file: seq<byte>, base: nat, from: nat, n: nat)
    requires from + n <= len <= |mem| && base + len <= |file| && mem[..len] == file[base..base + len]
    ensures mem[from..from + n] == file[base + from..base + len][..n]
  {
    WindowBytes(mem, len, file, base, from);
    assert mem[from..from + n] == mem[from..len][..n];
  }

  /** Offering the window and getting an answer is what `Conforms` asks for. */
  lemma OfferIsSent(p: Policy, cap: nat, file: seq<byte>, delivered: seq<byte>, h: History, at: nat,
                    bytes: seq<byte>, r: Reply)
    requires 0 < cap && SentSoFar(p, cap, file, delivered, h, at) && !Stopped(p, h) && at < |file|
    requires at + |bytes| == WindowEnd(p, cap, |file|, at) <= |file| && bytes == file[at..at + |bytes|]
    requires r == Answer(h.Script(), |bytes|)
    ensures SentSoFar(p, cap, file, delivered + bytes[..CountOf(r)], History.Write(h, bytes, r), at + CountOf(r))
    ensures Stopped(p, History.Write(h, bytes, r)) <==> Stops(p, r)
  {
    assert bytes[..CountOf(r)] == file[at..at + CountOf(r)];
  }

  /** Offers the window for as long as the reply is EAGAIN. */
  method WriteUntilTaken(p: Policy, sink: Writer, mem: array<byte>, from: nat, len: nat,
                         ghost file: seq<byte>, ghost base: nat, ghost cap: nat) returns (rc: Reply)
    requires 0 < cap && from < len && Holds(mem, len, file, base)
    requires Sent(p, cap, file, sink, base + from) && !Stopped(p, sink.history)
    requires WindowEnd(p, cap, |file|, base + from) == base + len
    modifies sink
    ensures rc != Again && CountOf(rc) <= len - from && Sent(p, cap, file, sink, base + from + CountOf(rc))
    ensures Stopped(p, sink.history) <==> Stops(p, rc)
    ensures rc == Error || |sink.script| < |old(sink.script)|
  {
    rc := WriteWindow(p, sink, mem, from, len, file, base, cap);
    while rc == Again
      invariant CountOf(rc) <= len - from && Sent(p, cap, file, sink, base + from + CountOf(rc))
      invariant Stopped(p, sink.history) <==> Stops(p, rc)
      invariant rc == Error || |sink.script| < |old(sink.script)|
      decreases if rc == Again then |sink.script| + 1 else 0
    {
      rc := WriteWindow(p, sink, mem, from, len, file, base, cap);
    }
  }

  /** Refills the buffer. `done` bytes of the file have been read, the last `memuse` of them are in it. */
  method TopUp(local: File, mem: array<byte>, memuse: nat, ghost file: seq<byte>, ghost at: nat, ghost done: nat)
    returns (nread: nat)
    requires Holds(mem, memuse, file, at) && done == at + memuse && local.rest == file[done..]
    modifies local, mem
    ensures nread == Min(mem.Length - memuse, |file| - done) && local.rest == file[done + nread..]
    ensures Holds(mem, memuse + nread, file, at)
  {
    nread := local.Read(mem, memuse, mem.Length - memuse);
    Join(file, at, done, done + nread);
    Join(file, done, done + nread, |file|);
  }

  method DropFront(mem: array<byte>, memuse: nat, taken: nat, ghost file: seq<byte>, ghost at: nat)
    returns (left: nat)
    requires Holds(mem, memuse, file, at) && taken <= memuse
    modifies mem
    ensures left == memuse - taken && Holds(mem, left, file, at + taken)
  {
    Join(file, at, at + taken, at + memuse);
    assert mem[taken..memuse] == mem[..memuse][taken..];
    if memuse - taken != 0 {
      MoveToFront(mem, taken, memuse - taken);
      left := memuse - taken;
    } else {
      left := 0;
    }
  }

  /** One write of all that is in the buffer. What has not been taken moves to the front. */
  method SendAndShift(sink: Writer, mem: array<byte>, memuse: nat, ghost file: seq<byte>, ghost at: nat)
    returns (rc: Reply, left: nat)
    requires 0 < memuse && Holds(mem, memuse, file, at) && at + memuse == Min(at + mem.Length, |file|)
    requires Sent(Slide, mem.Length, file, sink, at) && !Stopped(Slide, sink.history)
    modifies sink, mem
    ensures rc != Again && CountOf(rc) + left == memuse && Holds(mem, left, file, at + CountOf(rc))
    ensures Sent(Slide, mem.Length, file, sink, at + CountOf(rc))
    ensures Stopped(Slide, sink.history) <==> rc == Error || rc == Count(0)
  {
    rc := WriteUntilTaken(Slide, sink, mem, 0, memuse, file, at, mem.Length);
    left := memuse;
    if rc.Count? {
      left := DropFront(mem, memuse, rc.n, file, at);
    }
  }

  /** The loop of the sliding upload: unsent bytes stay at the front of `mem`, and every round tops it up. */
  method Slides(local: File, sink: Writer, mem: array<byte>) returns (total: nat, complete: bool, ghost at: nat)
    requires 0 < mem.Length && Sent(Slide, mem.Length, local.rest, sink, 0) && !Stopped(Slide, sink.history)
    modifies local, sink, mem
    ensures Sent(Slide, mem.Length, old(local.rest), sink, at) && complete == !Stopped(Slide, sink.history)
    ensures complete ==> at == |old(local.rest)|
    ensures total == Min(at + mem.Length, |old(local.rest)|)
  {
    ghost var file := local.rest;
    var memuse: nat := 0;
    total, complete, at := 0, false, 0;
    while true
      invariant memuse < mem.Length && Holds(mem, memuse, file, at)
      invariant total == at + memuse && local.rest == file[total..]
      invariant Sent(Slide, mem.Length, file, sink, at) && !Stopped(Slide, sink.history)
      decreases |file| - at
    {
      var nread := TopUp(local, mem, memuse, file, at, total);
      if nread <= 0 {
        if memuse > 0 {
          nread := 0;
        } else {
          complete := true;
          break;
        }
      }
      memuse := memuse + nread;
      total := total + nread;
      var rc;
      rc, memuse := SendAndShift(sink, mem, memuse, file, at);
      at := at + CountOf(rc);
      if !rc.Count? || rc.n <= 0 {
        break;
      }
    }
  }

  /** The sliding upload, from the beginning of the file. */
  method SlidingUpload(local: File, sink: Writer, mem: array<byte>)
    returns (total: nat, complete: bool, ghost at: nat)
    requires 0 < mem.Length && Sent(Slide, mem.Length, local.rest, sink, 0) && sink.history.Start?
    modifies local, sink, mem
    ensures Sent(Slide, mem.Length, old(local.rest), sink, at)
    ensures Run(Slide, mem.Length, |old(local.rest)|, 0, old(sink.script)) == Outcome(at, complete, sink.script)
    ensures complete <==> at == |old(local.rest)|
    ensures total == WindowEnd(Slide, mem.Length, |old(local.rest)|, at)
  {
    total, complete, at := Slides(local, sink, mem);
    HistoryIsOutcome(Slide, mem.Length, old(local.rest), sink.history);
  }

  /** A chunk begins at `at`, or the file ends there. */
  ghost predicate Aligned(cap: nat, size: nat, at: nat)
    requires 0 < cap
  {
    at == size || ChunkTop(cap, at) == at + cap
  }

  /** The inner loop of the chunked uploads: offers what is left of the chunk until all is taken
      or the write fails. */
  method DrainChunk(sink: Writer, mem: array<byte>, len: nat, ghost file: seq<byte>, ghost base: nat)
    returns (left: nat, rc: Reply, ghost at: nat)
    requires 0 < len && Holds(mem, len, file, base) && base + len == Min(base + mem.Length, |file|)
    requires Aligned(mem.Length, |file|, base)
    requires Sent(Chunk, mem.Length, file, sink, base) && !Stopped(Chunk, sink.history)
    modifies sink
    ensures at + left == base + len && Sent(Chunk, mem.Length, file, sink, at)
    ensures left == 0 <==> rc.Count? && rc.n > 0
    ensures left == 0 <==> !Stopped(Chunk, sink.history)
    ensures left == 0 ==> Aligned(mem.Length, |file|, at)
    ensures left > 0 ==> WindowEnd(Chunk, mem.Length, |file|, at) == base + len
  {
    ghost var cap, size := mem.Length, |file|;
    var ptr: nat := 0;
    left, rc := len, Again;
    while left > 0
      invariant ptr + left == len && Sent(Chunk, cap, file, sink, base + ptr)
      invariant left == 0 ==> rc.Count? && rc.n > 0
      invariant !Stopped(Chunk, sink.history)
      decreases left, |sink.script|
    {
      InChunk(cap, size, base, len, base + ptr);
      rc := WriteUntilTaken(Chunk, sink, mem, ptr, len, file, base, cap);
      if rc == Error {
        break;
      }
      ptr := ptr + rc.n;
      left := left - rc.n;
    }
    at := base + ptr;
    InChunk(cap, size, base, len, at);
  }

  /** The outer loop of the chunked uploads. Those of `sftp_write_nonblock.c` and `scp_write_nonblock.c`
      differ in the condition for going on to the next chunk: `rc > 0` in the first, a drained chunk in
      the second (`untilDrained`). The contract does not depend on which it is. */
  method Chunks(local: File, sink: Writer, mem: array<byte>, untilDrained: bool)
    returns (total: nat, complete: bool, ghost at: nat)
    requires 0 < mem.Length && Sent(Chunk, mem.Length, local.rest, sink, 0) && !Stopped(Chunk, sink.history)
    modifies local, sink, mem
    ensures Sent(Chunk, mem.Length, old(local.rest), sink, at) && complete == !Stopped(Chunk, sink.history)
    ensures complete ==> at == |old(local.rest)|
    ensures total == WindowEnd(Chunk, mem.Length, |old(local.rest)|, at)
  {
    ghost var file := local.rest;
    ghost var cap, size := mem.Length, |file|;
    total, complete, at := 0, false, 0;
    while true
      invariant Aligned(cap, size, at)
      invariant total == at <= size && local.rest == file[total..]
      invariant Sent(Chunk, cap, file, sink, at) && !Stopped(Chunk, sink.history)
      decreases size - at
    {
      var nread := TopUp(local, mem, 0, file, at, total);
      if nread <= 0 {
        complete := true;
        WindowOpen(Chunk, cap, size, at);
        break;
      }
      total := total + nread;
      var left, rc;
      left, rc, at := DrainChunk(sink, mem, nread, file, at);
      var goOn := if untilDrained then left == 0 else rc.Count? && rc.n > 0;
      if !goOn {
        break;
      }
    }
  }

  /** The chunked upload, from the beginning of the file. */
  method ChunkUpload(local: File, sink: Writer, mem: array<byte>, untilDrained: bool)
    returns (total: nat, complete: bool, ghost at: nat)
    requires 0 < mem.Length && Sent(Chunk, mem.Length, local.rest, sink, 0) && sink.history.Start?
    modifies local, sink, mem
    ensures Sent(Chunk, mem.Length, old(local.rest), sink, at)
    ensures Run(Chunk, mem.Length, |old(local.rest)|, 0, old(sink.script)) == Outcome(at, complete, sink.script)
    ensures complete <==> at == |old(local.rest)|
    ensures total == WindowEnd(Chunk, mem.Length, |old(local.rest)|, at)
  {
    total, complete, at := Chunks(local, sink, mem, untilDrained);
    HistoryIsOutcome(Chunk, mem.Length, old(local.rest), sink.history);
  }
}
