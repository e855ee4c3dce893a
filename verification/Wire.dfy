/** The outside world of the transfer loops: files, channels and sockets.

    Every call into libssh2 or the operating system is answered from a script, a finite
    sequence of replies fixed in advance. The programs are deterministic, so a for-all over
    scripts is a for-all over what the world can do. A script that has run out answers `Error`:
    each finite script stands for a run in which the connection breaks down after that many
    calls. */
module Wire {

  newtype byte = b: int | 0 <= b < 256

  /** What a read or a write reports: a byte count, "would block" (EAGAIN), or another error. */
  datatype Reply = Count(n: nat) | Again | Error

  function Min(a: int, b: int): int {
    if a < b then a else b
  }

  /** The reply to a request for at most `room` bytes: never more than was asked for. */
  function Answer(script: seq<Reply>, room: nat): (r: Reply)
    ensures r.Count? ==> r.n <= room
  {
    if script == [] then Error
    else if script[0].Count? then Count(Min(script[0].n, room))
    else script[0]
  }

  function Rest(script: seq<Reply>): seq<Reply> {
    if script == [] then [] else script[1..]
  }

  function CountOf(r: Reply): nat {
    if r.Count? then r.n else 0
  }

  /** How many bytes the replies are good for up to the first error, if there is room for all of them. */
  function Supply(script: seq<Reply>): nat {
    if script == [] || script[0] == Error then 0 else CountOf(script[0]) + Supply(script[1..])
  }

  /** The same up to the first reply that is not a count: where EAGAIN is an error too. */
  function Straight(script: seq<Reply>): nat {
    if script == [] || !script[0].Count? then 0 else script[0].n + Straight(script[1..])
  }

  /** The same up to the first reply that is not a nonzero count. */
  function Running(script: seq<Reply>): nat {
    if script == [] || CountOf(script[0]) == 0 then 0 else script[0].n + Running(script[1..])
  }

  /** How many bytes they are good for up to the first error or zero count, at most `cap` at a time. */
  function Flow(cap: nat, script: seq<Reply>): nat {
    if script == [] || script[0] == Error || script[0] == Count(0) then 0
    else Min(CountOf(script[0]), cap) + Flow(cap, script[1..])
  }

  /** One reply to an offer of `left` bytes. */
  lemma SupplyStep(script: seq<Reply>, left: nat)
    requires 0 < left
    ensures var r := Answer(script, left);
            && (r == Error ==> Supply(script) == 0)
            && (r != Error && CountOf(r) < left ==> Supply(script) == CountOf(r) + Supply(Rest(script)))
            && (CountOf(r) == left ==> left <= Supply(script))
  {
  }

  lemma RunningStep(script: seq<Reply>, left: nat)
    requires 0 < left
    ensures var r := Answer(script, left);
            && (CountOf(r) == 0 ==> Running(script) == 0)
            && (0 < CountOf(r) < left ==> Running(script) == CountOf(r) + Running(Rest(script)))
            && (CountOf(r) == left ==> left <= Running(script))
  {
  }

  /** The write calls so far, last one outermost: the bytes offered and the reply. */
  datatype History = Start(script: seq<Reply>) | Write(before: History, bytes: seq<byte>, reply: Reply) {
    /** The replies that are left. */
    ghost function Script(): seq<Reply> {
      match this
      case Start(script) => script
      case Write(before, _, _) => Rest(before.Script())
    }

    ghost function Initial(): seq<Reply> {
      match this
      case Start(script) => script
      case Write(before, _, _) => before.Initial()
    }

    /** The number of bytes taken. */
    ghost function Taken(): nat {
      match this
      case Start(_) => 0
      case Write(before, _, reply) => before.Taken() + CountOf(reply)
    }
  }

  /** The writing end of a channel, an SFTP handle or a socket. */
  class Writer {
    ghost const initial: seq<Reply>
    var script: seq<Reply>
    ghost var delivered: seq<byte>
    ghost var history: History

    constructor (script: seq<Reply>)
      ensures initial == script && this.script == script && delivered == [] && history == Start(script)
    {
      initial, this.script, delivered, history := script, script, [], Start(script);
    }

    /** Offers `buf[from..from + n]`; the peer takes a prefix of it. */
    method Write(buf: array<byte>, from: nat, n: nat) returns (r: Reply)
      requires from + n <= buf.Length
      modifies this
      ensures r == Answer(old(script), n) && script == Rest(old(script))
      ensures delivered == old(delivered) + old(buf[..])[from..from + CountOf(r)]
      ensures history == History.Write(old(history), old(buf[..])[from..from + n], r)
    {
      r := Answer(script, n);
      script := Rest(script);
      delivered := delivered + buf[from..from + CountOf(r)];
      history := History.Write(history, buf[from..from + n], r);
    }
  }

  /** The reading end of a channel: a stream and the script that cuts it into pieces. `reach` is how
      far into the stream the requests so far could have gone. */
  class Reader {
    var script: seq<Reply>
    var stream: seq<byte>
    ghost var consumed: nat
    ghost var reach: nat

    constructor (script: seq<Reply>, stream: seq<byte>)
      ensures this.script == script && this.stream == stream && consumed == 0 && reach == 0
    {
      this.script, this.stream, consumed, reach := script, stream, 0, 0;
    }

    /** Reads at most `n` bytes into `buf[from..]`. */
    method Read(buf: array<byte>, from: nat, n: nat) returns (r: Reply)
      requires from + n <= buf.Length
      modifies this, buf
      ensures r == Answer(old(script), Min(n, |old(stream)|)) && script == Rest(old(script))
      ensures stream == old(stream)[CountOf(r)..]
      ensures buf[..from + CountOf(r)] == old(buf[..from]) + old(stream)[..CountOf(r)]
      ensures forall i :: from + CountOf(r) <= i < buf.Length ==> buf[i] == old(buf[i])
      ensures consumed == old(consumed) + CountOf(r)
      ensures reach == if old(reach) < old(consumed) + n then old(consumed) + n else old(reach)
    {
      reach := if reach < consumed + n then consumed + n else reach;
      r := Answer(script, Min(n, |stream|));
      script := Rest(script);
      if r.Count? {
        forall i | 0 <= i < r.n {
          buf[from + i] := stream[i];
        }
        stream := stream[r.n..];
        consumed := consumed + r.n;
      }
    }
  }

  /** A local file read with `fread`, which comes up short only at the end of the file. */
  class File {
    var rest: seq<byte>

    constructor (content: seq<byte>)
      ensures rest == content
    {
      rest := content;
    }

    method Read(buf: array<byte>, from: nat, n: nat) returns (got: nat)
      requires from + n <= buf.Length
      modifies this, buf
      ensures got == Min(n, |old(rest)|) && rest == old(rest)[got..]
      ensures buf[..from + got] == old(buf[..from]) + old(rest)[..got]
    {
      got := Min(n, |rest|);
      forall i | 0 <= i < got {
        buf[from + i] := rest[i];
      }
      rest := rest[got..];
    }
  }

  /** Neighbouring pieces of a sequence join up. */
  lemma Join<T>(s: seq<T>, a: nat, b: nat, c: nat)
    requires a <= b <= c <= |s|
    ensures s[a..b] + s[b..c] == s[a..c]
    ensures s[b..][..c - b] == s[b..c] && s[b..][c - b..] == s[c..] && s[a..c][b - a..] == s[b..c]
  {
  }

  /** One more piece of a buffer has been delivered. */
  lemma Extend<T>(before: seq<T>, sent: seq<T>, buf: seq<T>, len: nat, a: nat, b: nat)
    requires a <= b <= len <= |buf|
    ensures (before + sent) + buf[a..b] == before + (sent + buf[..len][a..b])
    ensures a == 0 ==> buf[..len][a..b] == buf[..len][..b]
  {
    assert buf[..len][a..b] == buf[a..b];
  }

  lemma ExtendPrefix<T>(before: seq<T>, buf: seq<T>, a: nat, b: nat)
    requires a <= b <= |buf|
    ensures (before + buf[..a]) + buf[a..b] == before + buf[..b]
  {
    assert buf[..a] + buf[a..b] == buf[..b];
  }

  /** `memmove` to the front of the buffer: the `n` bytes at `src` become the first `n`. */
  method MoveToFront(buf: array<byte>, src: nat, n: nat)
    requires src + n <= buf.Length
    modifies buf
    ensures buf[..n] == old(buf[src..src + n])
  {
    forall i | 0 <= i < n {
      buf[i] := buf[src + i];
    }
  }
}
