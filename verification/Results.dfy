/** What each call of the wrapper classes achieves, said without the functions that model the calls. */
module Results {
  import opened Ownership

  /** A new object: one handle is acquired, and there are two new pointers, the member of the object and the
      variable. */
  ghost predicate IsMade(st: State, now: State, v: nat, o: Obj, f: Field, from: Obj) {
    && now.trace == Then(st.trace, Acquire(o)) && now.next == st.next + 1 && now.ended == st.ended
    && now.slots == st.slots[Member(o, f) := from][Local(v) := o]
  }

  /** The first `create` initialises the library, unless that fails; the others share it. */
  lemma CreateResult(st: State, v: nat, initOk: bool)
    requires Good(st) && Enabled(st, Create(v, initOk))
    ensures var now := Step(st, Create(v, initOk));
            && (Local(v) in now.slots <==> StaticPtr in st.slots || initOk)
            && (Local(v) in now.slots ==> now.slots == st.slots[StaticPtr := Lib][Local(v) := Lib])
            && (Local(v) !in now.slots ==> now == st)
            && now.trace == if StaticPtr in st.slots || !initOk then st.trace else Then(st.trace, Acquire(Lib))
  {
  }

  lemma NewSocketResult(st: State, v: nat, opens: bool, connects: bool)
    requires Enabled(st, NewSocket(v, opens, connects))
    ensures var k, now := Socket(st.next), Step(st, NewSocket(v, opens, connects));
            && (!opens ==> now == st)
            && (opens ==> now.next == st.next + 1 && now.ended == st.ended)
            && (opens && connects ==> now.slots == st.slots[Local(v) := k] && now.trace == Then(st.trace, Acquire(k)))
            && (opens && !connects ==>
                  now.slots == st.slots && now.trace == Then(Then(st.trace, Acquire(k)), Lose(st.next)))
  {
  }

  lemma NewSessionResult(st: State, v: nat, l: nat)
    requires Enabled(st, NewSession(v, l))
    ensures IsMade(st, Step(st, NewSession(v, l)), v, Session(st.next), TheLib, Lib)
  {
  }

  lemma NewChannelResult(st: State, v: nat, s: nat, opens: bool)
    requires Enabled(st, NewChannel(v, s, opens))
    ensures var session, now := st.slots[Local(s)], Step(st, NewChannel(v, s, opens));
            if opens then IsMade(st, now, v, Channel(st.next, session.id), TheSession, session) else now == st
  {
  }

  /** If libssh2 listens, the variable holds a listener of this session, and it keeps the session, the
      session's socket and the library; otherwise nothing has changed. */
  lemma NewListenerResult(st: State, v: nat, s: nat, listens: bool)
    requires Good(st) && Enabled(st, NewListener(v, s, listens))
    ensures var session, now := st.slots[Local(s)], Step(st, NewListener(v, s, listens));
            var o := Listener(st.next, session.id);
            if listens
            then IsMade(st, now, v, o, TheSession, session) && KeepsSession(now, o)
            else now == st
  {
    StepKeeps(st, NewListener(v, s, listens));
    if listens {
      ListenerKeepsAll(Step(st, NewListener(v, s, listens)), Listener(st.next, st.slots[Local(s)].id));
    }
  }

  /** The object exists, and so do its session, the socket of that, and the library. */
  ghost predicate KeepsSession(st: State, o: Obj) {
    && (o.Channel? || o.Listener?) && o in Alive(st.trace)
    && Session(o.session) in Alive(st.trace) && Lib in Alive(st.trace)
    && (o.session in Bound(st.trace) ==> Socket(Bound(st.trace)[o.session]) in Alive(st.trace))
  }

  lemma ListenerKeepsAll(st: State, o: Obj)
    requires Good(st) && o in Alive(st.trace) && o.Listener?
    ensures KeepsSession(st, o)
  {
    var s := Session(o.session);
    assert Needs(st.trace, o, s);
    assert HeldBy(st.slots, o, s);
    assert Needs(st.trace, s, Lib);
    assert HeldBy(st.slots, s, Lib);
    if o.session in Bound(st.trace) {
      var k := Socket(Bound(st.trace)[o.session]);
      assert Needs(st.trace, s, k);
      assert HeldBy(st.slots, s, k);
    }
  }

  lemma CopyResult(st: State, v: nat, x: nat)
    requires Enabled(st, Copy(v, x))
    ensures Step(st, Copy(v, x)) == st.(slots := st.slots[Local(v) := st.slots[Local(x)]])
  {
  }

  /** A handshake: the session holds the new socket. The old one is closed, between the assignment and the
      call of libssh2, if this was the last pointer to it. */
  lemma HandshakeResult(st: State, sv: nat, kv: nat)
    requires Good(st) && Enabled(st, Handshake(sv, kv))
    ensures var s, k, now := st.slots[Local(sv)], st.slots[Local(kv)], Step(st, Handshake(sv, kv));
            var x := Member(s, TheSocket);
            var taken := Then(st.trace, Bind(s.id, k.id));
            && now.slots == st.slots[x := k] && now.next == st.next && now.ended == st.ended
            && now.trace == Then(if x in st.slots && !Owned(now.slots, st.slots[x])
                                 then Then(taken, Release(st.slots[x])) else taken, Shake(s.id, k.id))
  {
    var s := st.slots[Local(sv)];
    var x := Member(s, TheSocket);
    if x in st.slots {
      assert Needs(st.trace, s, st.slots[x]) && FieldFor(st.slots[x]) == TheSocket;
      HasNoMembers(Attach(Emit(st, Bind(s.id, st.slots[Local(kv)].id)), x, st.slots[Local(kv)]), st.slots[x]);
    }
  }

  /** Sockets and the library have no members. */
  lemma HasNoMembers(st: State, o: Obj)
    requires Rank(o) == 0
    ensures Destroy(st, o) == Emit(st, Release(o))
  {
    assert forall now :: DetachMember(now, o, TheSession) == now;
  }

  /** Where another pointer to the object is left, dropping a variable only takes the variable. */
  lemma DropOfShared(st: State, v: nat)
    requires Local(v) in st.slots && Owned(st.slots - {Local(v)}, st.slots[Local(v)])
    ensures Step(st, Drop(v)) == st.(slots := st.slots - {Local(v)})
  {
  }

  /** The pointers that are left when a program holds one channel, and nothing else. */
  ghost predicate OnlyChannel(st: State, v: nat, c: Obj, k: Obj) {
    && c.Channel? && k.Socket?
    && var s := Session(c.session);
       st.slots == map[Local(v) := c, Member(c, TheSession) := s, Member(s, TheSocket) := k, Member(s, TheLib) := Lib]
  }

  /** Then the drop takes all of it, in this order: the channel, its session, the socket, the library. */
  lemma DropOfTheLastChannel(st: State, v: nat, c: Obj, k: Obj)
    requires OnlyChannel(st, v, c, k)
    ensures Step(st, Drop(v)).slots == map[]
    ensures Step(st, Drop(v)).trace
         == Then(Then(Then(Then(st.trace, Release(c)), Release(Session(c.session))), Release(k)), Release(Lib))
  {
    var s := Session(c.session);
    var m1 := map[Member(c, TheSession) := s, Member(s, TheSocket) := k, Member(s, TheLib) := Lib];
    var m2 := map[Member(s, TheSocket) := k, Member(s, TheLib) := Lib];
    assert st.slots - {Local(v)} == m1 && m1 - {Member(c, TheSession)} == m2;
    assert !Owned(m1, c) && !Owned(m2, s);
    var st1 := st.(slots := m1, trace := Then(st.trace, Release(c)));
    var st2 := st1.(slots := m2);
    SessionGoes(st2, s, k);
    var st3 := DetachMember(st1, c, TheSession);
    assert st3 == Detach(st1, Member(c, TheSession)) == Destroy(st2, s);
    assert DetachMember(st3, c, TheSocket) == st3 && DetachMember(st3, c, TheLib) == st3;
    assert Destroy(st.(slots := m1), c) == st3;
    assert Step(st, Drop(v)) == Destroy(st.(slots := m1), c);
  }

  lemma SessionGoes(st: State, s: Obj, k: Obj)
    requires s.Session? && k.Socket? && st.slots == map[Member(s, TheSocket) := k, Member(s, TheLib) := Lib]
    ensures Destroy(st, s)
         == st.(slots := map[], trace := Then(Then(Then(st.trace, Release(s)), Release(k)), Release(Lib)))
  {
    var st1 := Emit(st, Release(s));
    var m: map<Slot, Obj> := map[Member(s, TheLib) := Lib];
    assert st.slots - {Member(s, TheSocket)} == m && !Owned(m, k);
    HasNoMembers(st1.(slots := m), k);
    var st2 := Detach(st1, Member(s, TheSocket));
    assert st2 == Emit(st1.(slots := m), Release(k));
    assert m - {Member(s, TheLib)} == map[];
    HasNoMembers(st2.(slots := map[]), Lib);
    assert Detach(st2, Member(s, TheLib)) == Emit(st2.(slots := map[]), Release(Lib));
  }

  lemma EndResult(st: State)
    requires Enabled(st, End)
    ensures var now := Step(st, End);
            && now.ended
            && (StaticPtr !in st.slots ==> now.slots == st.slots && now.trace == st.trace)
            && (StaticPtr in st.slots && Owned(st.slots - {StaticPtr}, st.slots[StaticPtr]) ==>
                  now.slots == st.slots - {StaticPtr} && now.trace == st.trace)
  {
  }

  /** In a state that a program can reach, each call can be made with a new variable and variables of the
      right types: the conditions on the members of new objects are always met. */
  lemma CanBeCalledExactlyWhen(st: State, op: Op)
    requires Good(st)
    ensures Enabled(st, op) <==>
            match op
            case Create(v, _) => !st.ended && Local(v) !in st.slots
            case NewSocket(v, _, _) => Local(v) !in st.slots
            case NewSession(v, l) => Local(v) !in st.slots && Local(l) in st.slots && st.slots[Local(l)] == Lib
            case Handshake(s, k) =>
              Local(s) in st.slots && st.slots[Local(s)].Session? && Local(k) in st.slots && st.slots[Local(k)].Socket?
            case NewChannel(v, s, _) => Local(v) !in st.slots && Local(s) in st.slots && st.slots[Local(s)].Session?
            case NewListener(v, s, _) => Local(v) !in st.slots && Local(s) in st.slots && st.slots[Local(s)].Session?
            case Copy(v, x) => Local(v) !in st.slots && Local(x) in st.slots
            case Drop(v) => Local(v) in st.slots
            case End => !st.ended
  {
    NewMembers(st, Session(st.next), TheLib);
    match op
    case NewChannel(_, s, _) =>
      if Local(s) in st.slots && st.slots[Local(s)].Session? {
        NewMembers(st, Channel(st.next, st.slots[Local(s)].id), TheSession);
      }
    case NewListener(_, s, _) =>
      if Local(s) in st.slots && st.slots[Local(s)].Session? {
        NewMembers(st, Listener(st.next, st.slots[Local(s)].id), TheSession);
      }
    case _ =>
  }
}
