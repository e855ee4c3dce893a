/** The write loops that do less than their callers may expect: the loop of `tcpip-forward.c` and
    `netconf_write`, which offers the whole buffer again after a partial write, and the upload of
    `scp_write.c`, which goes on to the next chunk after a failed write. */
module PlainWrites {
  import opened Uploads
  import opened Wire

  /** What a call puts on the wire, whether it reports success, and the replies left unread. */
  datatype Sending<T> = Sending(bytes: seq<T>, ok: bool, rest: seq<Reply>)

  /** The loop without an offset, after `wr` bytes: it ends when a write takes nothing or when the
      counts add up to the length of the buffer. Here EAGAIN is an error like any other. */
  function Resend<T>(buf: seq<T>, wr: nat, script: seq<Reply>): Sending<T>
    decreases |script|
  {
    match Answer(script, |buf|)
    case Count(n) =>
      if 0 < n && wr + n < |buf| then Prepend(buf[..n], Resend(buf, wr + n, Rest(script)))
      else Sending(buf[..n], true, Rest(script))
    case _ => Sending([], false, Rest(script))
  }

  /** `netconf_write`, and the socket-to-channel loop of `tcpip-forward.c`. */
  method WriteWithoutOffset(channel: Writer, buf: array<byte>, len: nat) returns (ok: bool, ghost sent: seq<byte>)
    requires len <= buf.Length
    modifies channel
    ensures Resend(buf[..len], 0, old(channel.script)) == Sending(sent, ok, channel.script)
    ensures channel.delivered == old(channel.delivered) + sent
  {
    ghost var all := buf[..];
    ghost var bytes := all[..len];
    assert buf[..len] == bytes;
    ghost var goal := Resend(bytes, 0, channel.script);
    var wr: nat := 0;
    ok, sent := true, [];
    while true
      invariant channel.delivered == old(channel.delivered) + sent && buf[..] == all
      invariant Prepend(sent, Resend(bytes, wr, channel.script)) == goal
      decreases |channel.script|
    {
      ResendStep(bytes, sent, wr, channel.script);
      var i := channel.Write(buf, 0, len);
      Extend(old(channel.delivered), sent, all, len, 0, CountOf(i));
      sent := sent + bytes[..CountOf(i)];
      if !i.Count? {
        ok := false;
        break;
      }
      wr := wr + i.n;
      if !(0 < i.n && wr < len) {
        break;
      }
    }
  }

  /** One write, from the front: what is known when `sent` has been taken. */
  lemma ResendStep<T>(buf: seq<T>, sent: seq<T>, wr: nat, script: seq<Reply>)
    ensures var i := Answer(script, |buf|);
            Prepend(sent, Resend(buf, wr, script))
            == if i.Count? && 0 < i.n && wr + i.n < |buf|
               then Prepend(sent + buf[..i.n], Resend(buf, wr + i.n, Rest(script)))
               else Sending(sent + buf[..CountOf(i)], i.Count?, Rest(script))
  {
    var i := Answer(script, |buf|);
    if i.Count? && 0 < i.n && wr + i.n < |buf| {
      PrependTwice(sent, buf[..i.n], Resend(buf, wr + i.n, Rest(script)));
    }
  }

  function Prepend<T>(bytes: seq<T>, s: Sending<T>): Sending<T> {
    s.(bytes := bytes + s.bytes)
  }

  lemma PrependTwice<T>(a: seq<T>, b: seq<T>, s: Sending<T>)
    ensures Prepend(a, Prepend(b, s)) == Prepend(a + b, s)
  {
    assert a + (b + s.bytes) == (a + b) + s.bytes;
  }

  /** The loop is right for every buffer of a given length exactly when the first write takes the
      whole buffer. */
  lemma RightExactlyWhenFirstTakesAll(len: nat, script: seq<Reply>)
    requires 0 < len
    ensures (forall buf: seq<byte> | |buf| == len ::
               Resend(buf, 0, script).ok && Resend(buf, 0, script).bytes == buf)
       <==> Answer(script, len) == Count(len)
  {
    if Answer(script, len) == Count(len) {
      forall buf: seq<byte> | |buf| == len
        ensures Resend(buf, 0, script).ok && Resend(buf, 0, script).bytes == buf
      {
        assert buf[..len] == buf;
      }
    } else {
      var r := CountOf(Answer(script, len));
      var buf := seq(len, i => if i == r then 1 as byte else 0);
      if 0 < r {
        RestartShows(buf, r, script);
      } else {
        assert Resend(buf, 0, script).bytes == [];
      }
      assert !(Resend(buf, 0, script).ok && Resend(buf, 0, script).bytes == buf);
    }
  }

  /** After a first write of `r` bytes the next byte on the wire, if any, is the first of the buffer
      again, and not byte `r`. */
  lemma RestartShows<T>(buf: seq<T>, r: nat, script: seq<Reply>)
    requires Answer(script, |buf|) == Count(r) && 0 < r < |buf|
    ensures var sent := Resend(buf, 0, script).bytes;
            && buf[..r] <= sent && (r < |sent| ==> sent[r] == buf[0])
            && (buf[r] != buf[0] ==> sent != buf)
  {
    var next := Resend(buf, r, Rest(script));
    assert Resend(buf, 0, script).bytes == buf[..r] + next.bytes;
    if next.bytes != [] {
      StartsOver(buf, r, Rest(script));
      assert (buf[..r] + next.bytes)[r] == buf[0];
    }
  }

  /** For a buffer without repetitions the loop is right only then. */
  lemma RightForDistinctExactlyWhen<T>(buf: seq<T>, script: seq<Reply>)
    requires buf != [] && Distinct(buf)
    ensures Resend(buf, 0, script).ok && Resend(buf, 0, script).bytes == buf
       <==> Answer(script, |buf|) == Count(|buf|)
  {
    var r := Answer(script, |buf|);
    if r == Count(|buf|) {
      assert buf[..|buf|] == buf;
    } else if 0 < CountOf(r) {
      RestartShows(buf, CountOf(r), script);
    } else {
      assert Resend(buf, 0, script).bytes == [];
    }
  }

  lemma {:induction false} StartsOver<T>(buf: seq<T>, wr: nat, script: seq<Reply>)
    requires Resend(buf, wr, script).bytes != []
    ensures buf != [] && Resend(buf, wr, script).bytes[0] == buf[0]
  {
  }

  /** The replies under which success is reported, after `wr` bytes: no error before the counts add up to
      the length of the buffer, or before a count of zero. */
  predicate Reports(len: nat, wr: nat, script: seq<Reply>)
    decreases |script|
  {
    script != [] && script[0].Count? &&
    var n := Min(script[0].n, len);
    n == 0 || wr + n >= len || Reports(len, wr + n, script[1..])
  }

  lemma {:induction false} SuccessExactlyWhen<T>(buf: seq<T>, wr: nat, script: seq<Reply>)
    ensures Resend(buf, wr, script).ok <==> Reports(|buf|, wr, script)
    decreases |script|
  {
    if script != [] && script[0].Count? {
      var n := Min(script[0].n, |buf|);
      if n > 0 && wr + n < |buf| {
        SuccessExactlyWhen(buf, wr + n, script[1..]);
      }
    }
  }

  /** Success is reported, and the bytes are not those of the buffer. */
  ghost predicate WrongSuccess<T(!new)>(buf: seq<T>, script: seq<Reply>) {
    Resend(buf, 0, script).ok && Resend(buf, 0, script).bytes != buf
  }

  /** That can happen with some buffer of a given length exactly when success is reported and the first
      write does not take everything. */
  lemma WrongSuccessExactlyWhen(len: nat, script: seq<Reply>)
    ensures (exists buf: seq<byte> :: |buf| == len && WrongSuccess(buf, script))
       <==> Reports(len, 0, script) && Answer(script, len) != Count(len)
  {
    forall buf: seq<byte> | |buf| == len
      ensures Resend(buf, 0, script).ok <==> Reports(len, 0, script)
      ensures Answer(script, len) == Count(len) ==> Resend(buf, 0, script).bytes == buf
    {
      SuccessExactlyWhen(buf, 0, script);
      assert buf[..len] == buf;
    }
    if Reports(len, 0, script) && Answer(script, len) != Count(len) {
      var r := CountOf(Answer(script, len));
      var buf := seq(len, i => if i == r then 1 as byte else 0);
      if 0 < r {
        RestartShows(buf, r, script);
      } else {
        assert Resend(buf, 0, script).bytes == [];
      }
      assert |buf| == len && WrongSuccess(buf, script);
    }
  }

  /** Success is reported although two bytes out of two are the same byte. */
  lemma SuccessWithWrongBytes()
    ensures var s := Resend([1, 2], 0, [Count(1), Count(1)]); s.ok && s.bytes == [1, 1]
  {
    var script := [Count(1), Count(1)];
    assert Rest(script) == [Count(1)];
    assert Resend([1, 2], 1, Rest(script)).bytes == [1];
  }

  /** The loop with an offset, after `wr` bytes, as `direct_tcpip.c` has it: it goes on with what has not
      been taken, and retries after EAGAIN. */
  function Onward<T>(buf: seq<T>, wr: nat, script: seq<Reply>): Sending<T>
    requires wr <= |buf|
    decreases |script|
  {
    if wr == |buf| then Sending([], true, script)
    else
      match Answer(script, |buf| - wr)
      case Count(n) => Prepend(buf[wr..wr + n], Onward(buf, wr + n, Rest(script)))
      case Again => Onward(buf, wr, Rest(script))
      case Error => Sending([], false, Rest(script))
  }

  /** The same steps, from the front: what is known when `sent` has been taken. */
  lemma OnwardStep<T>(buf: seq<T>, sent: seq<T>, wr: nat, script: seq<Reply>)
    requires wr < |buf|
    ensures var i := Answer(script, |buf| - wr);
            Prepend(sent, Onward(buf, wr, script))
            == if i.Count? then Prepend(sent + buf[wr..wr + i.n], Onward(buf, wr + i.n, Rest(script)))
               else if i == Again then Prepend(sent, Onward(buf, wr, Rest(script)))
               else Sending(sent, false, Rest(script))
  {
    var i := Answer(script, |buf| - wr);
    if i.Count? {
      PrependTwice(sent, buf[wr..wr + i.n], Onward(buf, wr + i.n, Rest(script)));
    }
    assert sent + [] == sent;
  }

  method WriteWithOffset(channel: Writer, buf: array<byte>, len: nat) returns (ok: bool, ghost sent: seq<byte>)
    requires len <= buf.Length
    modifies channel
    ensures Onward(buf[..len], 0, old(channel.script)) == Sending(sent, ok, channel.script)
    ensures channel.delivered == old(channel.delivered) + sent
  {
    ghost var all := buf[..];
    ghost var bytes := all[..len];
    assert buf[..len] == bytes;
    ghost var goal := Onward(bytes, 0, channel.script);
    var wr: nat := 0;
    sent := [];
    assert Prepend(sent, goal) == goal;
    while wr < len
      invariant wr <= len && channel.delivered == old(channel.delivered) + sent && buf[..] == all
      invariant Prepend(sent, Onward(bytes, wr, channel.script)) == goal
      decreases |channel.script|, len - wr
    {
      OnwardStep(bytes, sent, wr, channel.script);
      var i := channel.Write(buf, wr, len - wr);
      if i == Again {
        continue;
      }
      if !i.Count? {
        return false, sent;
      }
      Extend(old(channel.delivered), sent, all, len, wr, wr + i.n);
      sent := sent + bytes[wr..wr + i.n];
      wr := wr + i.n;
    }
    assert sent + [] == sent;
    return true, sent;
  }

  /** With an offset the bytes are the next ones of the buffer, as many as the replies are good for, and
      success means all of them. */
  lemma {:induction false} OnwardMeans<T>(buf: seq<T>, wr: nat, script: seq<Reply>)
    requires wr <= |buf|
    ensures var n := wr + Min(|buf| - wr, Supply(script));
            Onward(buf, wr, script).bytes == buf[wr..n] && (Onward(buf, wr, script).ok <==> n == |buf|)
    decreases |script|
  {
    if wr < |buf| && script != [] && script[0] != Error {
      var next := wr + CountOf(Answer(script, |buf| - wr));
      OnwardMeans(buf, next, script[1..]);
      Join(buf, wr, next, wr + Min(|buf| - wr, Supply(script)));
    }
  }

  /** The replies under which restarting does not matter: the first write takes everything, or fails, or
      nothing is taken after it. */
  predicate RestartIsHarmless(len: nat, script: seq<Reply>) {
    var r := Answer(script, len);
    r == Count(len) || r == Error || Supply(Rest(script)) == 0
  }

  /** The two loops put the same bytes on the wire exactly then, if the byte after a partial first write
      is not by chance the first byte of the buffer. */
  lemma SameBytesExactlyWhen<T>(buf: seq<T>, script: seq<Reply>)
    requires buf != []
    requires var r := CountOf(Answer(script, |buf|)); 0 < r < |buf| ==> buf[r] != buf[0]
    ensures Resend(buf, 0, script).bytes == Onward(buf, 0, script).bytes <==> RestartIsHarmless(|buf|, script)
  {
    OnwardMeans(buf, 0, script);
    var a := Answer(script, |buf|);
    var r := CountOf(a);
    if 0 < r < |buf| {
      var next := Resend(buf, r, Rest(script));
      OnwardMeans(buf, r, Rest(script));
      assert Resend(buf, 0, script).bytes == buf[..r] + next.bytes;
      if next.bytes != [] {
        StartsOver(buf, r, Rest(script));
        assert (buf[..r] + next.bytes)[r] == buf[0];
      }
    }
  }

  /** For every buffer of a given length they do exactly then. */
  lemma SameAsWithOffsetExactlyWhen(len: nat, script: seq<Reply>)
    requires 0 < len
    ensures (forall buf: seq<byte> | |buf| == len :: Resend(buf, 0, script).bytes == Onward(buf, 0, script).bytes)
       <==> RestartIsHarmless(len, script)
  {
    var r := CountOf(Answer(script, len));
    var mixed := seq(len, i => if i == r && r != 0 then 1 as byte else 0);
    SameBytesExactlyWhen(mixed, script);
    if RestartIsHarmless(len, script) {
      forall buf: seq<byte> | |buf| == len
        ensures Resend(buf, 0, script).bytes == Onward(buf, 0, script).bytes
      {
        HarmlessForAll(buf, script);
      }
    }
  }

  lemma HarmlessForAll<T>(buf: seq<T>, script: seq<Reply>)
    requires buf != [] && RestartIsHarmless(|buf|, script)
    ensures Resend(buf, 0, script).bytes == Onward(buf, 0, script).bytes
  {
    OnwardMeans(buf, 0, script);
  }

  /** `scp_write.c`: how much of each chunk is taken. A chunk ends when it is used up or at the
      first reply that is not a count. */
  function Drain(n: nat, script: seq<Reply>): (r: (nat, seq<Reply>))
    ensures r.0 <= n
    decreases |script|
  {
    if n == 0 || script == [] then (0, script)
    else if !script[0].Count? then (0, script[1..])
    else
      var k := Min(script[0].n, n);
      var (more, rest) := Drain(n - k, script[1..]);
      (k + more, rest)
  }

  /** How much of a chunk is taken: what the counts add up to before the first reply that is not one. */
  lemma {:induction false} DrainsStraight(n: nat, script: seq<Reply>)
    ensures Drain(n, script).0 == Min(n, Straight(script))
    decreases |script|
  {
    if n > 0 && script != [] && script[0].Count? {
      DrainsStraight(n - Min(script[0].n, n), script[1..]);
    }
  }

  /** Which replies are used for it: as many counts as it takes, or all of them and the one that is none. */
  lemma {:induction false} DrainUses(n: nat, script: seq<Reply>) returns (used: nat)
    ensures used <= |script| && Drain(n, script).1 == script[used..]
    ensures forall i :: 0 <= i < used - 1 ==> script[i].Count?
    ensures n <= Straight(script) ==> (used > 0 ==> script[used - 1].Count? && Straight(script[..used - 1]) < n)
    ensures n > Straight(script) ==> used == |script| || (used > 0 && !script[used - 1].Count?)
    decreases |script|
  {
    if n == 0 || script == [] {
      used := 0;
    } else if !script[0].Count? {
      used := 1;
    } else {
      var more := DrainUses(n - Min(script[0].n, n), script[1..]);
      used := more + 1;
      assert script[1..][more..] == script[used..];
      if more > 0 {
        assert script[..used - 1] == [script[0]] + script[1..][..more - 1];
        assert script[..used - 1][1..] == script[1..][..more - 1];
      }
    }
  }

  function TakenPerChunk(cap: nat, size: nat, script: seq<Reply>): (taken: seq<nat>)
    requires 0 < cap
    decreases size
  {
    if size == 0 then []
    else
      var (k, rest) := Drain(Min(cap, size), script);
      [k] + TakenPerChunk(cap, size - Min(cap, size), rest)
  }

  /** The taken part of each chunk, one after the other. */
  function Assemble<T>(cap: nat, file: seq<T>, taken: seq<nat>): seq<T>
    requires 0 < cap && Fits(cap, |file|, taken)
    decreases |file|
  {
    if file == [] then []
    else file[..taken[0]] + Assemble(cap, file[Min(cap, |file|)..], taken[1..])
  }

  /** One entry for each chunk, none larger than its chunk. */
  predicate Fits(cap: nat, size: nat, taken: seq<nat>)
    requires 0 < cap
    decreases size
  {
    if size == 0 then taken == []
    else taken != [] && taken[0] <= Min(cap, size) && Fits(cap, size - Min(cap, size), taken[1..])
  }

  /** No chunk that was cut short is followed by a delivery. */
  predicate NoGap(cap: nat, size: nat, taken: seq<nat>)
    requires 0 < cap && Fits(cap, size, taken)
    decreases size
  {
    size == 0 ||
    if taken[0] == Min(cap, size) then NoGap(cap, size - Min(cap, size), taken[1..])
    else forall i :: 1 <= i < |taken| ==> taken[i] == 0
  }

  lemma {:induction false} TakenFits(cap: nat, size: nat, script: seq<Reply>)
    requires 0 < cap
    ensures Fits(cap, size, TakenPerChunk(cap, size, script))
    decreases size
  {
    if 0 < size {
      TakenFits(cap, size - Min(cap, size), Drain(Min(cap, size), script).1);
    }
  }

  lemma {:induction false} NothingTaken<T>(cap: nat, file: seq<T>, taken: seq<nat>)
    requires 0 < cap && Fits(cap, |file|, taken)
    ensures Assemble(cap, file, taken) == [] <==> forall i :: 0 <= i < |taken| ==> taken[i] == 0
    decreases |file|
  {
    if file != [] {
      NothingTaken(cap, file[Min(cap, |file|)..], taken[1..]);
      if Assemble(cap, file, taken) == [] {
        assert |file[..taken[0]]| == 0;
        forall i | 0 <= i < |taken| ensures taken[i] == 0 {
          if 0 < i { assert taken[i] == taken[1..][i - 1]; }
        }
      }
    }
  }

  lemma {:induction false} OnlyFileBytes<T>(cap: nat, file: seq<T>, taken: seq<nat>, x: T)
    requires 0 < cap && Fits(cap, |file|, taken) && x in Assemble(cap, file, taken)
    ensures x in file
    decreases |file|
  {
    if file != [] && x !in file[..taken[0]] {
      OnlyFileBytes(cap, file[Min(cap, |file|)..], taken[1..], x);
    }
  }

  ghost predicate Distinct<T>(s: seq<T>) {
    forall i, j :: 0 <= i < j < |s| ==> s[i] != s[j]
  }

  /** With no gap the remote file is a prefix of the local one, whatever the file holds. */
  lemma {:induction false} NoGapGivesPrefix<T>(cap: nat, file: seq<T>, taken: seq<nat>)
    requires 0 < cap && Fits(cap, |file|, taken) && NoGap(cap, |file|, taken)
    ensures Assemble(cap, file, taken) <= file
    decreases |file|
  {
    if file != [] {
      var c := Min(cap, |file|);
      if taken[0] == c {
        NoGapGivesPrefix(cap, file[c..], taken[1..]);
      } else {
        NothingTaken(cap, file[c..], taken[1..]);
      }
    }
  }

  lemma PrefixAfter<T>(file: seq<T>, c: nat, tail: seq<T>)
    requires c <= |file|
    ensures file[..c] + tail <= file <==> tail <= file[c..]
  {
    assert forall i :: 0 <= i < |tail| ==> tail[i] == (file[..c] + tail)[c + i];
  }

  /** A file of zeros and a single one, which is the first byte not taken of the chunk cut short. */
  lemma {:induction false} GapShows(cap: nat, size: nat, taken: seq<nat>) returns (file: seq<byte>)
    requires 0 < cap && Fits(cap, size, taken) && !NoGap(cap, size, taken)
    ensures |file| == size && !(Assemble(cap, file, taken) <= file)
    decreases size
  {
    var c, k := Min(cap, size), taken[0];
    if k == c {
      var rest := GapShows(cap, size - c, taken[1..]);
      file := seq(c, _ => 0) + rest;
      assert file[c..] == rest;
      PrefixAfter(file, c, Assemble(cap, rest, taken[1..]));
    } else {
      file := seq(size, i => if i == k then 1 else 0);
      var rest := file[c..];
      var tail := Assemble(cap, rest, taken[1..]);
      SomethingLater(cap, rest, taken);
      OnlyFileBytes(cap, rest, taken[1..], tail[0]);
      assert (file[..k] + tail)[k] == 0;
    }
  }

  lemma SomethingLater<T>(cap: nat, rest: seq<T>, taken: seq<nat>)
    requires 0 < cap && taken != [] && Fits(cap, |rest|, taken[1..])
    requires exists i :: 1 <= i < |taken| && taken[i] != 0
    ensures Assemble(cap, rest, taken[1..]) != []
  {
    NothingTaken(cap, rest, taken[1..]);
    var i :| 1 <= i < |taken| && taken[i] != 0;
    assert taken[1..][i - 1] == taken[i];
  }

  /** The remote file is a prefix of the local one for every file of a given size exactly when there is
      no gap. */
  lemma PrefixExactlyWhenNoGap(cap: nat, size: nat, taken: seq<nat>)
    requires 0 < cap && Fits(cap, size, taken)
    ensures (forall file: seq<byte> | |file| == size :: Assemble(cap, file, taken) <= file)
       <==> NoGap(cap, size, taken)
  {
    if NoGap(cap, size, taken) {
      forall file: seq<byte> | |file| == size ensures Assemble(cap, file, taken) <= file {
        NoGapGivesPrefix(cap, file, taken);
      }
    } else {
      var file := GapShows(cap, size, taken);
    }
  }

  /** The replies of a channel for which EAGAIN is an error like any other. */
  function WithoutAgain(script: seq<Reply>): seq<Reply> {
    if script == [] then []
    else [if script[0] == Again then Error else script[0]] + WithoutAgain(script[1..])
  }

  /** Every chunk has been taken in full. */
  predicate AllTaken(cap: nat, size: nat, taken: seq<nat>)
    requires 0 < cap && Fits(cap, size, taken)
    decreases size
  {
    size == 0 || (taken[0] == Min(cap, size) && AllTaken(cap, size - Min(cap, size), taken[1..]))
  }

  lemma {:induction false} FullChunk(n: nat, script: seq<Reply>)
    ensures var (k, rest) := Drain(n, script);
            Spend(n, WithoutAgain(script)).0 <==> k == n
    ensures var (k, rest) := Drain(n, script);
            k == n ==> Spend(n, WithoutAgain(script)).1 == WithoutAgain(rest)
    decreases |script|
  {
    if n > 0 && script != [] && script[0].Count? {
      assert WithoutAgain(script)[1..] == WithoutAgain(script[1..]);
      FullChunk(n - Min(script[0].n, n), script[1..]);
    }
  }

  /** All chunks are taken in full exactly when the replies are good for them one after the other, with
      EAGAIN as an error. */
  lemma {:induction false} AllTakenExactlyWhen(cap: nat, size: nat, script: seq<Reply>)
    requires 0 < cap
    ensures Fits(cap, size, TakenPerChunk(cap, size, script))
    ensures AllTaken(cap, size, TakenPerChunk(cap, size, script)) <==> GoodForChunks(cap, size, WithoutAgain(script))
    decreases size
  {
    TakenFits(cap, size, script);
    if size > 0 {
      var n := Min(cap, size);
      FullChunk(n, script);
      AllTakenExactlyWhen(cap, size - n, Drain(n, script).1);
    }
  }

  lemma {:induction false} LengthTaken<T>(cap: nat, file: seq<T>, taken: seq<nat>)
    requires 0 < cap && Fits(cap, |file|, taken)
    ensures |Assemble(cap, file, taken)| <= |file|
    ensures |Assemble(cap, file, taken)| == |file| <==> AllTaken(cap, |file|, taken)
    ensures AllTaken(cap, |file|, taken) ==> Assemble(cap, file, taken) == file
    decreases |file|
  {
    if file != [] {
      LengthTaken(cap, file[Min(cap, |file|)..], taken[1..]);
    }
  }

  /** The whole file arrives exactly when the chunked upload with retries would have delivered it under the
      same replies with every EAGAIN turned into an error. */
  lemma WholeFileArrivesExactlyWhen<T>(cap: nat, file: seq<T>, script: seq<Reply>)
    requires 0 < cap
    ensures Fits(cap, |file|, TakenPerChunk(cap, |file|, script))
    ensures Assemble(cap, file, TakenPerChunk(cap, |file|, script)) == file
       <==> Run(Chunk, cap, |file|, 0, WithoutAgain(script)).complete
  {
    AllTakenExactlyWhen(cap, |file|, script);
    LengthTaken(cap, file, TakenPerChunk(cap, |file|, script));
    ChunkedFinishesExactlyWhen(cap, |file|, WithoutAgain(script));
  }

  /** Three replies that leave a gap: with two chunks, a byte of each arrives, and the second is in the
      wrong place. */
  lemma ErrorLeavesGap(cap: nat, file: seq<byte>)
    requires 2 <= cap && |file| == cap + 1 && file[1] != file[cap]
    ensures var taken := TakenPerChunk(cap, |file|, [Count(1), Error, Count(1)]);
            && taken == [1, 1] && Assemble(cap, file, taken) == [file[0], file[cap]]
            && !(Assemble(cap, file, taken) <= file)
  {
    var script := [Count(1), Error, Count(1)];
    assert script[1..] == [Error, Count(1)] && script[1..][1..] == [Count(1)];
    assert Drain(cap - 1, script[1..]) == (0, [Count(1)]);
    assert Drain(cap, script) == (1, [Count(1)]);
    assert [Count(1)][1..] == [];
    assert Drain(1, [Count(1)]) == (1, []);
    assert TakenPerChunk(cap, 1, [Count(1)]) == [1];
    assert Assemble(cap, file[cap..], [1]) == [file[cap]];
    assert file[..1] + [file[cap]] == [file[0], file[cap]];
  }

  lemma Advance<T>(cap: nat, done: seq<T>, file: seq<T>, taken: seq<nat>)
    requires 0 < cap && Fits(cap, |file|, taken) && file != []
    ensures done + Assemble(cap, file, taken)
         == (done + file[..taken[0]]) + Assemble(cap, file[Min(cap, |file|)..], taken[1..])
  {
    var a, b := file[..taken[0]], Assemble(cap, file[Min(cap, |file|)..], taken[1..]);
    assert done + (a + b) == (done + a) + b;
  }

  /** The inner loop: the same chunk until an error or completion. */
  method WriteChunk(sink: Writer, mem: array<byte>, len: nat) returns (ghost taken: nat)
    requires 0 < len <= mem.Length
    modifies sink
    ensures (taken, sink.script) == Drain(len, old(sink.script))
    ensures taken <= len && sink.delivered == old(sink.delivered) + mem[..taken]
  {
    ghost var all := mem[..];
    var ptr, nread := 0, len;
    taken := 0;
    while nread != 0
      invariant 0 <= ptr && 0 <= nread && ptr + nread == len && taken == ptr && mem[..] == all
      invariant sink.delivered == old(sink.delivered) + all[..ptr]
      invariant var (more, rest) := Drain(nread, sink.script); Drain(len, old(sink.script)) == (ptr + more, rest)
      decreases nread, |sink.script|
    {
      var rc := sink.Write(mem, ptr, nread);
      if !rc.Count? {
        break;
      }
      ExtendPrefix(old(sink.delivered), all, ptr, ptr + rc.n);
      ptr := ptr + rc.n;
      nread := nread - rc.n;
      taken := ptr;
    }
  }

  /** The upload of `scp_write.c`: on a write error the rest of the chunk is given up, and the
      upload goes on with the next one. */
  method UploadPastErrors(local: File, sink: Writer, mem: array<byte>) returns (ghost taken: seq<nat>)
    requires 0 < mem.Length && sink.delivered == []
    modifies local, sink, mem
    ensures taken == TakenPerChunk(mem.Length, |old(local.rest)|, old(sink.script))
    ensures Fits(mem.Length, |old(local.rest)|, taken)
    ensures sink.delivered == Assemble(mem.Length, old(local.rest), taken)
  {
    ghost var cap, file := mem.Length, local.rest;
    taken := TakenPerChunk(cap, |file|, sink.script);
    TakenFits(cap, |file|, sink.script);
    ghost var todo := taken;
    while true
      invariant Fits(cap, |local.rest|, todo) && todo == TakenPerChunk(cap, |local.rest|, sink.script)
      invariant sink.delivered + Assemble(cap, local.rest, todo) == Assemble(cap, file, taken)
      decreases |local.rest|
    {
      ghost var left := local.rest;
      var nread := local.Read(mem, 0, mem.Length);
      if nread <= 0 {
        break;
      }
      Advance(cap, sink.delivered, left, todo);
      assert mem[..nread] == left[..nread];
      ghost var k := WriteChunk(sink, mem, nread);
      assert mem[..k] == left[..k];
      todo := todo[1..];
    }
  }
}
