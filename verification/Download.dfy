/** The download loop of `scp_nonblock.c`, which stops at the size announced by the server. */
module Download {
  import opened Wire

  /** The loop as a machine, after `got` bytes of the `size` that were announced, with `avail` bytes
      still to come: how many bytes are fetched in the end, and the replies left. */
  function Fetch(cap: nat, size: nat, got: nat, avail: nat, script: seq<Reply>): (r: (nat, seq<Reply>))
    requires got <= size
    ensures got <= r.0 <= size
    decreases |script|
  {
    match Answer(script, Min(Min(cap, size - got), avail))
    case Error => (got, Rest(script))
    case Again => if got < size then Fetch(cap, size, got, avail, Rest(script)) else (got, Rest(script))
    case Count(n) =>
      if n > 0 then Fetch(cap, size, got + n, avail - n, Rest(script)) else (got, Rest(script))
  }

  /** How much is fetched: no more than was announced, no more than is sent, and otherwise as many
      bytes as the replies are good for. */
  lemma {:induction false} FetchesExactly(cap: nat, size: nat, got: nat, avail: nat, script: seq<Reply>)
    requires 0 < cap && got <= size
    ensures Fetch(cap, size, got, avail, script).0 == got + Min(Min(size - got, avail), Flow(cap, script))
    decreases |script|
  {
    if script != [] && script[0] != Error && script[0] != Count(0) {
      var n := CountOf(Answer(script, Min(Min(cap, size - got), avail)));
      FetchesExactly(cap, size, got + n, avail - n, script[1..]);
    }
  }

  /** Some of the replies have been used, and `rest` are left. */
  predicate Left(script: seq<Reply>, rest: seq<Reply>) {
    |rest| < |script| && script[|script| - |rest|..] == rest
  }

  /** The replies that have been used, but for the last of them. */
  function BeforeLast(script: seq<Reply>, rest: seq<Reply>): seq<Reply>
    requires Left(script, rest)
  {
    script[..|script| - |rest| - 1]
  }

  /** The loop is always left after a read that brings nothing: the replies before the last one that was
      used would have brought as much. */
  lemma {:induction false} LastReadBringsNothing(cap: nat, size: nat, got: nat, avail: nat, script: seq<Reply>)
    requires got <= size && Fetch(cap, size, got, avail, script).1 != []
    ensures var (n, rest) := Fetch(cap, size, got, avail, script);
            Left(script, rest) && n == Fetch(cap, size, got, avail, BeforeLast(script, rest)).0
    decreases |script|
  {
    var r := Answer(script, Min(Min(cap, size - got), avail));
    if CountOf(r) > 0 || (r == Again && got < size) {
      var k := CountOf(r);
      var (n, rest) := Fetch(cap, size, got + k, avail - k, script[1..]);
      LastReadBringsNothing(cap, size, got + k, avail - k, script[1..]);
      OneReadMore(cap, size, got, avail, script, rest);
    } else {
      LastRead(cap, size, got, avail, script);
    }
  }

  lemma LastRead(cap: nat, size: nat, got: nat, avail: nat, script: seq<Reply>)
    requires got <= size && script != []
    requires var r := Answer(script, Min(Min(cap, size - got), avail)); CountOf(r) == 0 && (r == Again ==> got == size)
    ensures Fetch(cap, size, got, avail, script) == (got, script[1..]) && Left(script, script[1..])
    ensures Fetch(cap, size, got, avail, BeforeLast(script, script[1..])).0 == got
  {
    assert BeforeLast(script, script[1..]) == [];
  }

  lemma OneReadMore(cap: nat, size: nat, got: nat, avail: nat, script: seq<Reply>, rest: seq<Reply>)
    requires got <= size && script != [] && Left(script[1..], rest)
    requires var r := Answer(script, Min(Min(cap, size - got), avail)); CountOf(r) > 0 || (r == Again && got < size)
    ensures Left(script, rest)
    ensures var k := CountOf(Answer(script, Min(Min(cap, size - got), avail)));
            Fetch(cap, size, got, avail, BeforeLast(script, rest))
            == Fetch(cap, size, got + k, avail - k, BeforeLast(script[1..], rest))
            && Fetch(cap, size, got, avail, script) == Fetch(cap, size, got + k, avail - k, script[1..])
  {
    assert BeforeLast(script, rest)[1..] == BeforeLast(script[1..], rest);
  }

  /** The whole file is fetched exactly when the server sends it all and the replies are good for it. */
  lemma FetchesAllExactlyWhen(cap: nat, size: nat, avail: nat, script: seq<Reply>)
    requires 0 < cap
    ensures Fetch(cap, size, 0, avail, script).0 == size <==> size <= avail && size <= Flow(cap, script)
  {
    FetchesExactly(cap, size, 0, avail, script);
  }

  /** The loop. The output is what was written to standard output. */
  method FetchFile(channel: Reader, size: nat, mem: array<byte>) returns (got: nat, total: nat, output: seq<byte>)
    requires 0 < mem.Length && channel.consumed == 0 && channel.reach == 0
    modifies channel, mem
    ensures got == total == Min(Min(size, |old(channel.stream)|), Flow(mem.Length, old(channel.script)))
    ensures output == old(channel.stream)[..got]
    ensures channel.stream == old(channel.stream)[got..]
    ensures channel.reach <= size && (size == 0 ==> channel.script == old(channel.script))
    ensures 0 < size ==>
              (got, channel.script) == Fetch(mem.Length, size, 0, |old(channel.stream)|, old(channel.script))
  {
    ghost var stream := channel.stream;
    ghost var goal := Fetch(mem.Length, size, 0, |stream|, channel.script);
    got, total, output := 0, 0, [];
    while got < size
      invariant Fetched(channel, size, got, total, output, stream)
      invariant got < size || size == 0
      invariant size == 0 ==> channel.script == old(channel.script)
      invariant got < size ==> goal == Fetch(mem.Length, size, got, |stream| - got, channel.script)
      decreases |channel.script|
    {
      ghost var replies := |channel.script|;
      var rc := Count(1);
      while rc.Count? && rc.n > 0
        invariant Fetched(channel, size, got, total, output, stream)
        invariant |channel.script| <= replies
        invariant goal == After(mem.Length, size, got, |stream| - got, rc, channel.script)
        invariant rc == Again ==> |channel.script| < replies
        decreases rc.Count? && rc.n > 0, |channel.script|
      {
        var amount := if size - got < mem.Length then size - got else mem.Length;
        rc := ReadSome(channel, mem, amount, size, got, output, stream);
        if rc.Count? && rc.n > 0 {
          output := output + mem[..rc.n];
          got := got + rc.n;
          total := total + rc.n;
        }
      }
      if rc == Again && got < size {
        continue;
      }
      break;
    }
    FetchesExactly(mem.Length, size, 0, |stream|, old(channel.script));
  }

  lemma OutputGrows(stream: seq<byte>, output: seq<byte>, upTo: nat, piece: seq<byte>)
    requires output <= stream && |output| <= upTo <= |stream| && piece == stream[|output|..upTo]
    ensures output + piece <= stream && |output + piece| == upTo
  {
  }

  /** Where the machine goes after reply `r`, with `got` bytes fetched so far. */
  ghost function After(cap: nat, size: nat, got: nat, avail: nat, r: Reply, script: seq<Reply>): (nat, seq<Reply>)
    requires got <= size
  {
    if CountOf(r) > 0 || (r == Again && got < size) then Fetch(cap, size, got, avail, script) else (got, script)
  }

  /** One read of at most `amount` bytes: a step of the machine. */
  method ReadSome(channel: Reader, mem: array<byte>, amount: nat,
                  ghost size: nat, ghost got: nat, ghost output: seq<byte>, ghost stream: seq<byte>)
    returns (rc: Reply)
    requires Fetched(channel, size, got, got, output, stream) && amount == Min(mem.Length, size - got)
    modifies channel, mem
    ensures CountOf(rc) <= amount
    ensures Fetched(channel, size, got + CountOf(rc), got + CountOf(rc), output + mem[..CountOf(rc)], stream)
    ensures After(mem.Length, size, got + CountOf(rc), |stream| - got - CountOf(rc), rc, channel.script)
         == Fetch(mem.Length, size, got, |stream| - got, old(channel.script))
    ensures |channel.script| <= |old(channel.script)|
    ensures rc == Error || |channel.script| < |old(channel.script)|
  {
    rc := channel.Read(mem, 0, amount);
    Join(stream, got, got + CountOf(rc), |stream|);
    assert mem[..CountOf(rc)] == mem[..0 + CountOf(rc)];
    OutputGrows(stream, output, got + CountOf(rc), mem[..CountOf(rc)]);
  }

  ghost predicate Fetched(channel: Reader, size: nat, got: nat, total: nat, output: seq<byte>, stream: seq<byte>)
    reads channel
  {
    && got == total == channel.consumed && got <= size && got <= |stream| && channel.reach <= size
    && output <= stream && |output| == got && channel.stream == stream[got..]
  }
}
