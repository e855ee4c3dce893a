/** `Session::handshake` called more than once. The session gives up its old socket before libssh2 is
    told about the new one, so that libssh2 can be left with a closed socket. This file says when. */
module Handshakes {
  import opened Ownership
  import opened Results

  /** No session that exists uses the socket. */
  ghost predicate Unused(t: Trace, o: Obj) {
    forall s :: Session(s) in Alive(t) && s in Used(t) ==> o != Socket(Used(t)[s])
  }

  /** No socket has been closed while libssh2 used it. */
  ghost predicate Careful(t: Trace) {
    t.Then? ==> Careful(t.before) && (t.event.Release? ==> Unused(t.before, t.event.o))
  }

  /** libssh2 uses the sockets that the sessions have taken. */
  ghost predicate Agreed(t: Trace) {
    Used(t) == Bound(t)
  }

  /** Where the two agree, the order of releases is careful. */
  lemma {:induction false} CarefulAlong(t0: Trace, t: Trace)
    requires OnlyReleases(t0, t) && Ordered(t) && Agreed(t0)
    ensures Agreed(t) && (Careful(t) <==> Careful(t0))
  {
    if t != t0 {
      CarefulAlong(t0, t.before);
      forall s | Session(s) in Alive(t.before) && s in Used(t.before)
        ensures t.event.o != Socket(Used(t.before)[s])
      {
        assert Needs(t.before, Session(s), Socket(Used(t.before)[s]));
      }
    }
  }

  /** The session holds the only pointer to its socket, and is given another one. */
  ghost predicate ClosesOwnSocket(st: State, s: Obj, k: Obj) {
    var x := Member(s, TheSocket);
    x in st.slots && st.slots[x] != k && forall y :: y in st.slots && y != x ==> st.slots[y] != st.slots[x]
  }

  lemma BindAndRelease(t: Trace, s: nat, k: nat, o: Obj)
    ensures var t1 := Then(Then(t, Bind(s, k)), Release(o));
            Used(t1) == Used(t) && Bound(t1) == Bound(t)[s := k]
  {
    assert Bound(Then(t, Bind(s, k))) == Bound(t)[s := k];
  }

  lemma HandshakeCareful(st: State, s: Obj, k: Obj)
    requires Good(st) && Agreed(st.trace)
    requires s in Alive(st.trace) && k in Alive(st.trace) && s.Session? && k.Socket?
    ensures var r := Shaken(st, s, k);
            Agreed(r.trace) && (Careful(r.trace) <==> Careful(st.trace) && !ClosesOwnSocket(st, s, k))
  {
    var x := Member(s, TheSocket);
    var bound := Emit(st, Bind(s.id, k.id));
    var taken := Attach(bound, x, k);
    if x in st.slots {
      LastPointer(st.slots, x, k);
      var oldSocket := st.slots[x];
      assert Needs(st.trace, s, oldSocket) && FieldFor(oldSocket) == TheSocket;
      if !Owned(taken.slots, oldSocket) {
        HasNoMembers(taken, oldSocket);
        BindAndRelease(st.trace, s.id, k.id, oldSocket);
        assert Used(bound.trace)[s.id] == oldSocket.id;
        assert !Unused(bound.trace, oldSocket);
      }
    }
  }

  lemma LastPointer(slots: map<Slot, Obj>, x: Slot, k: Obj)
    requires x in slots
    ensures !Owned(slots[x := k], slots[x]) <==>
              slots[x] != k && forall y :: y in slots && y != x ==> slots[y] != slots[x]
  {
    var more := slots[x := k];
    if !Owned(more, slots[x]) {
      assert more[x] == k;
      forall y | y in slots && y != x ensures slots[y] != slots[x] {
        assert more[y] == slots[y];
      }
    }
  }

  ghost predicate ClosesUsedSocket(st: State, op: Op) {
    op.Handshake? && Enabled(st, op) && ClosesOwnSocket(st, st.slots[Local(op.session)], st.slots[Local(op.socket)])
  }

  /** A call closes a socket that libssh2 uses exactly when it is a handshake with another socket than
      before, and the session has the only pointer to the one before. */
  lemma StepCareful(st: State, op: Op)
    requires Good(st) && Agreed(st.trace) && Enabled(st, op)
    ensures var r := Step(st, op);
            Agreed(r.trace) && (Careful(r.trace) <==> Careful(st.trace) && !ClosesUsedSocket(st, op))
  {
    StepKeeps(st, op);
    match op
    case Handshake(s, k) => HandshakeCareful(st, st.slots[Local(s)], st.slots[Local(k)]);
    case Drop(v) =>
      DetachOnlyReleases(st, Local(v));
      CarefulAlong(st.trace, Step(st, op).trace);
    case End =>
      if StaticPtr in st.slots {
        DetachOnlyReleases(st, StaticPtr);
        CarefulAlong(st.trace, Step(st, op).trace);
      }
    case _ =>
  }

  ghost predicate NeverClosesUsedSocket(ops: seq<Op>) {
    ops != [] ==>
      var front := ops[..|ops| - 1];
      NeverClosesUsedSocket(front) && !ClosesUsedSocket(Run(front), ops[|ops| - 1])
  }

  /** Over every run: no socket is closed under libssh2 exactly when no call is of that kind. */
  lemma {:induction false} RunIsCarefulExactlyWhen(ops: seq<Op>)
    ensures Agreed(Run(ops).trace) && (Careful(Run(ops).trace) <==> NeverClosesUsedSocket(ops))
  {
    if ops != [] {
      var front, op := ops[..|ops| - 1], ops[|ops| - 1];
      RunIsCarefulExactlyWhen(front);
      EveryRunIsGood(front);
      if Enabled(Run(front), op) {
        StepCareful(Run(front), op);
      }
    }
  }

  lemma RunMore(ops: seq<Op>, op: Op)
    ensures Run(ops + [op]) == Do(Run(ops), op)
  {
    assert (ops + [op])[..|ops|] == ops;
  }

  /** Connect, and drop the pointer to the socket. */
  const ONCE := [Create(0, true), NewSession(1, 0), NewSocket(2, true, true), Handshake(1, 2), Drop(2)]

  lemma AfterTwo()
    ensures Run(ONCE[..2]).next == 1
    ensures Run(ONCE[..2]).slots ==
              map[StaticPtr := Lib, Local(0) := Lib, Member(Session(0), TheLib) := Lib, Local(1) := Session(0)]
  {
    RunMore([], ONCE[0]);
    assert [] + [ONCE[0]] == ONCE[..1];
    assert Run(ONCE[..1]).slots == map[StaticPtr := Lib, Local(0) := Lib];
    RunMore(ONCE[..1], ONCE[1]);
    assert ONCE[..1] + [ONCE[1]] == ONCE[..2];
  }

  lemma AfterOnce()
    ensures Run(ONCE).next == 2
    ensures Run(ONCE).slots == map[StaticPtr := Lib, Local(0) := Lib, Member(Session(0), TheLib) := Lib,
                                   Local(1) := Session(0), Member(Session(0), TheSocket) := Socket(1)]
  {
    AfterTwo();
    RunMore(ONCE[..2], ONCE[2]);
    assert ONCE[..2] + [ONCE[2]] == ONCE[..3];
    var withSocket := Run(ONCE[..2]).slots[Local(2) := Socket(1)];
    assert Run(ONCE[..3]).slots == withSocket;
    RunMore(ONCE[..3], ONCE[3]);
    assert ONCE[..3] + [ONCE[3]] == ONCE[..4];
    var shaken := withSocket[Member(Session(0), TheSocket) := Socket(1)];
    assert Run(ONCE[..4]).slots == shaken;
    RunMore(ONCE[..4], ONCE[4]);
    assert ONCE[..4] + [ONCE[4]] == ONCE;
    assert (shaken - {Local(2)})[Member(Session(0), TheSocket)] == Socket(1);
  }

  lemma AfterNextSocket()
    ensures var now := Run(ONCE + [NewSocket(2, true, true)]);
            Enabled(now, Handshake(1, 2)) && ClosesUsedSocket(now, Handshake(1, 2))
  {
    AfterOnce();
    RunMore(ONCE, NewSocket(2, true, true));
    assert Run(ONCE + [NewSocket(2, true, true)]).slots == Run(ONCE).slots[Local(2) := Socket(2)];
  }

  /** It can happen: a program connects a session twice and keeps no pointer to the first socket. */
  lemma SecondHandshakeShows()
    ensures !Careful(Run(ONCE + [NewSocket(2, true, true)] + [Handshake(1, 2)]).trace)
  {
    var again := ONCE + [NewSocket(2, true, true)];
    AfterNextSocket();
    RunMore(again, Handshake(1, 2));
    EveryRunIsGood(again);
    RunIsCarefulExactlyWhen(again);
    StepCareful(Run(again), Handshake(1, 2));
  }
}
