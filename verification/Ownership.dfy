/** Who owns what in `src/libssh2`: the handles of libssh2 and the sockets, the shared pointers that
    keep them alive, and the order in which they are released.

    There are no counts here. An object is destroyed when no pointer to it is left; the file
    `Handles.dfy` shows that counting does the same. */
module Ownership {

  /** The objects. A channel or a listener belongs to one session for good. */
  datatype Obj =
    | Lib                                  // class Libssh2: libssh2_init and libssh2_exit
    | Socket(id: nat)
    | Session(id: nat)
    | Channel(id: nat, session: nat)
    | Listener(id: nat, session: nat)

  datatype Field = TheSession | TheSocket | TheLib

  /** The places that hold a shared pointer: `Libssh2::ptr`, the variables of the program, and the
      members of objects. */
  datatype Slot = StaticPtr | Local(name: nat) | Member(of: Obj, field: Field)

  /** What happens: a handle is acquired or released, a session takes a socket for its own, it does the
      handshake over the socket, a connect fails in the constructor of a socket. */
  datatype Event =
    | Acquire(o: Obj)
    | Release(o: Obj)
    | Bind(session: nat, socket: nat)
    | Shake(session: nat, socket: nat)
    | Lose(socket: nat)

  /** The events so far, last one outermost. */
  datatype Trace = Start | Then(before: Trace, event: Event)

  /** The objects that exist: acquired, not released, and not lost by a failing constructor. */
  ghost function Alive(t: Trace): set<Obj> {
    match t
    case Start => {}
    case Then(before, Acquire(o)) => Alive(before) + {o}
    case Then(before, Release(o)) => Alive(before) - {o}
    case Then(before, Lose(k)) => Alive(before) - {Socket(k)}
    case Then(before, _) => Alive(before)
  }

  ghost function Acquired(t: Trace): set<Obj> {
    match t
    case Start => {}
    case Then(before, Acquire(o)) => Acquired(before) + {o}
    case Then(before, _) => Acquired(before)
  }

  /** The socket that each session has taken last. */
  ghost function Bound(t: Trace): map<nat, nat> {
    match t
    case Start => map[]
    case Then(before, Bind(s, k)) => Bound(before)[s := k]
    case Then(before, _) => Bound(before)
  }

  /** The socket that libssh2 uses for each session: that of the last handshake. */
  ghost function Used(t: Trace): map<nat, nat> {
    match t
    case Start => map[]
    case Then(before, Shake(s, k)) => Used(before)[s := k]
    case Then(before, _) => Used(before)
  }

  /** `d` cannot do without `o`. */
  ghost predicate Needs(t: Trace, d: Obj, o: Obj) {
    match d
    case Lib => false
    case Socket(_) => false
    case Session(s) => o == Lib || (s in Bound(t) && o == Socket(Bound(t)[s]))
    case Channel(_, s) => o == Session(s)
    case Listener(_, s) => o == Session(s)
  }

  /** What the library asks of its callers: nothing is acquired twice or before the thing it needs,
      nothing is released twice, and nothing while something that exists needs it. */
  ghost predicate Allowed(t: Trace, e: Event) {
    match e
    case Acquire(o) =>
      && o !in Acquired(t)
      && (o.Session? ==> Lib in Alive(t))
      && (o.Channel? || o.Listener? ==> Session(o.session) in Alive(t))
    case Release(o) => o in Alive(t) && forall d :: d in Alive(t) ==> !Needs(t, d, o)
    case Bind(s, k) => Session(s) in Alive(t) && Socket(k) in Alive(t)
    case Shake(s, k) => Session(s) in Alive(t) && Socket(k) in Alive(t) && s in Bound(t) && Bound(t)[s] == k
    case Lose(k) => Socket(k) in Alive(t) && forall d :: d in Alive(t) ==> !Needs(t, d, Socket(k))
  }

  ghost predicate Ordered(t: Trace) {
    t.Then? ==> Ordered(t.before) && Allowed(t.before, t.event)
  }

  /** The pointers, the events, the number of the next object, and whether the static pointer has
      been destroyed at the end of the program. */
  datatype State = State(slots: map<Slot, Obj>, trace: Trace, next: nat, ended: bool)

  /** A pointer that is not a member of an object. */
  predicate IsRoot(x: Slot) {
    !x.Member?
  }

  const EMPTY := State(map[], Start, 0, false)

  ghost predicate Owned(slots: map<Slot, Obj>, o: Obj) {
    exists x :: x in slots && slots[x] == o
  }

  function Rank(o: Obj): nat {
    match o
    case Lib => 0
    case Socket(_) => 0
    case Session(_) => 1
    case _ => 2
  }

  // ----- the destruction of pointers and objects

  /** A pointer is destroyed, and with the last pointer the object. */
  ghost function Detach(st: State, x: Slot): State
    requires x in st.slots
    decreases Rank(st.slots[x]), 2
  {
    var o, st' := st.slots[x], st.(slots := st.slots - {x});
    if Owned(st'.slots, o) then st' else Destroy(st', o)
  }

  /** The destructor releases the handle; then the members are destroyed, the last declared first. */
  ghost function Destroy(st: State, o: Obj): State
    decreases Rank(o), 1
  {
    var st1 := st.(trace := Then(st.trace, Release(o)));
    DetachMember(DetachMember(DetachMember(st1, o, TheSession), o, TheSocket), o, TheLib)
  }

  ghost function DetachMember(st: State, o: Obj, f: Field): State
    decreases Rank(o), 0
  {
    var x := Member(o, f);
    if x in st.slots && Rank(st.slots[x]) < Rank(o) then Detach(st, x) else st
  }

  // ----- what the wrapper classes offer

  /** The calls of a program on its variables. The flags say what the calls into libssh2 and the
      operating system return. */
  datatype Op =
    | Create(v: nat, initOk: bool)
    | NewSocket(v: nat, opens: bool, connects: bool)
    | NewSession(v: nat, lib: nat)
    | Handshake(session: nat, socket: nat)
    | NewChannel(v: nat, session: nat, opens: bool)
    | NewListener(v: nat, session: nat, listens: bool)
    | Copy(v: nat, from: nat)
    | Drop(v: nat)
    | End

  predicate Holds(st: State, v: nat, o: Obj) {
    Local(v) in st.slots && st.slots[Local(v)] == o
  }

  /** The call can be made: a new variable and the members of a new object are new, and the other
      variables hold what the types say. */
  ghost predicate Enabled(st: State, op: Op) {
    match op
    case Create(v, _) => !st.ended && Local(v) !in st.slots
    case NewSocket(v, _, _) => Local(v) !in st.slots
    case NewSession(v, l) => Local(v) !in st.slots && Holds(st, l, Lib) && Member(Session(st.next), TheLib) !in st.slots
    case Handshake(s, k) =>
      Local(s) in st.slots && st.slots[Local(s)].Session? && Local(k) in st.slots && st.slots[Local(k)].Socket?
    case NewChannel(v, s, _) =>
      && Local(v) !in st.slots && Local(s) in st.slots && st.slots[Local(s)].Session?
      && Member(Channel(st.next, st.slots[Local(s)].id), TheSession) !in st.slots
    case NewListener(v, s, _) =>
      && Local(v) !in st.slots && Local(s) in st.slots && st.slots[Local(s)].Session?
      && Member(Listener(st.next, st.slots[Local(s)].id), TheSession) !in st.slots
    case Copy(v, x) => Local(v) !in st.slots && Local(x) in st.slots
    case Drop(v) => Local(v) in st.slots
    case End => !st.ended
  }

  ghost function Emit(st: State, e: Event): State {
    st.(trace := Then(st.trace, e))
  }

  ghost function Attach(st: State, x: Slot, o: Obj): State {
    st.(slots := st.slots[x := o])
  }

  /** A new object: it is acquired, its member points to what it is made from, and `v` to it. */
  ghost function Make(st: State, v: nat, o: Obj, f: Field, from: Obj): State {
    Attach(Attach(Emit(st, Acquire(o)), Member(o, f), from), Local(v), o).(next := st.next + 1)
  }

  /** A call that cannot be made is passed over. */
  ghost function Do(st: State, op: Op): State {
    if Enabled(st, op) then Step(st, op) else st
  }

  ghost function Step(st: State, op: Op): State
    requires Enabled(st, op)
  {
    match op
    case Create(v, initOk) =>
      if StaticPtr in st.slots then Attach(st, Local(v), st.slots[StaticPtr])
      else if initOk then Attach(Attach(Emit(st, Acquire(Lib)), StaticPtr, Lib), Local(v), Lib)
      else st
    case NewSocket(v, opens, connects) =>
      var k := Socket(st.next);
      if !opens then st
      else if connects then Attach(Emit(st, Acquire(k)), Local(v), k).(next := st.next + 1)
      else Emit(Emit(st, Acquire(k)), Lose(k.id)).(next := st.next + 1)
    case NewSession(v, l) => Make(st, v, Session(st.next), TheLib, Lib)
    case Handshake(sv, kv) => Shaken(st, st.slots[Local(sv)], st.slots[Local(kv)])
    case NewChannel(v, sv, opens) =>
      var s := st.slots[Local(sv)];
      if opens then Make(st, v, Channel(st.next, s.id), TheSession, s) else st
    case NewListener(v, sv, listens) =>
      var s := st.slots[Local(sv)];
      if listens then Make(st, v, Listener(st.next, s.id), TheSession, s) else st
    case Copy(v, x) => Attach(st, Local(v), st.slots[Local(x)])
    case Drop(v) => Detach(st, Local(v))
    case End => if StaticPtr in st.slots then Detach(st, StaticPtr).(ended := true) else st.(ended := true)
  }

  /** A handshake: the session takes the new socket, gives up the old one, and then calls libssh2. */
  ghost function Shaken(st: State, s: Obj, k: Obj): State
    requires s.Session? && k.Socket?
  {
    Emit(Rebind(Emit(st, Bind(s.id, k.id)), s, k), Shake(s.id, k.id))
  }

  /** The assignment to the socket pointer of a session: the new one is held before the old one is
      given up. */
  ghost function Rebind(st: State, s: Obj, k: Obj): State {
    var x := Member(s, TheSocket);
    var st' := Attach(st, x, k);
    if x in st.slots && !Owned(st'.slots, st.slots[x]) then Destroy(st', st.slots[x]) else st'
  }

  /** The state after a program has made its calls. */
  ghost function Run(ops: seq<Op>): State {
    if ops == [] then EMPTY else Do(Run(ops[..|ops| - 1]), ops[|ops| - 1])
  }

  // ----- what holds in every state

  /** Pointers point to objects that exist, and objects that exist have the pointers they need. */
  ghost predicate Linked(st: State) {
    && Ordered(st.trace)
    && (forall x :: x in st.slots ==> st.slots[x] in Alive(st.trace))
    && (forall x :: x in st.slots && x.Member? ==> Rank(st.slots[x]) < Rank(x.of))
    && (forall d, o :: d in Alive(st.trace) && Needs(st.trace, d, o) ==> HeldBy(st.slots, d, o))
    && Numbered(st)
  }

  /** The numbers of new objects are new. */
  ghost predicate Numbered(st: State) {
    && (forall d :: d in Alive(st.trace) ==> d in Acquired(st.trace))
    && (forall d :: d in Acquired(st.trace) ==> d == Lib || d.id < st.next)
    && (forall s :: s in Bound(st.trace) ==> Session(s) in Acquired(st.trace))
  }

  ghost predicate HeldBy(slots: map<Slot, Obj>, d: Obj, o: Obj) {
    var x := Member(d, FieldFor(o));
    x in slots && slots[x] == o
  }

  function FieldFor(o: Obj): Field {
    match o
    case Lib => TheLib
    case Socket(_) => TheSocket
    case _ => TheSession
  }

  /** There is no garbage: every object has a pointer to it, and the members belong to objects that
      exist or are just being destroyed. */
  ghost predicate Tight(st: State, dying: set<Obj>) {
    AllOwnedBut(st, {}) && MembersOf(st, dying)
  }

  ghost predicate AllOwnedBut(st: State, but: set<Obj>) {
    forall o :: o in Alive(st.trace) ==> Owned(st.slots, o) || o in but
  }

  ghost predicate MembersOf(st: State, dying: set<Obj>) {
    && (forall x :: x in st.slots && x.Member? ==> x.of in Alive(st.trace) || x.of in dying)
    && dying !! Alive(st.trace)
  }

  /** From `st` to `r` pointers and objects have gone, and nothing else has happened. The pointers
      that are no members, and the members of objects being destroyed, are still there. */
  ghost predicate Shrunk(st: State, r: State, dying: set<Obj>) {
    && r.slots.Keys <= st.slots.Keys
    && (forall x :: x in r.slots ==> r.slots[x] == st.slots[x])
    && (forall x :: x in st.slots && (x.Member? ==> x.of in dying) ==> x in r.slots)
    && Alive(r.trace) <= Alive(st.trace) && Acquired(r.trace) == Acquired(st.trace)
    && Bound(r.trace) == Bound(st.trace) && r.next == st.next && r.ended == st.ended
  }

  lemma ReleaseKeeps(st: State, o: Obj)
    requires Linked(st) && o in Alive(st.trace) && !Owned(st.slots, o)
    ensures Linked(Emit(st, Release(o)))
  {
    forall d | d in Alive(st.trace) ensures !Needs(st.trace, d, o) {
      if Needs(st.trace, d, o) {
        assert HeldBy(st.slots, d, o);
        assert Owned(st.slots, o);
      }
    }
    var r := Emit(st, Release(o));
    forall d, p | d in Alive(r.trace) && Needs(r.trace, d, p) ensures HeldBy(r.slots, d, p) {
      assert Needs(st.trace, d, p);
    }
  }

  lemma DropKeeps(st: State, x: Slot)
    requires Linked(st) && x in st.slots && (x.Member? ==> x.of !in Alive(st.trace))
    ensures Linked(st.(slots := st.slots - {x}))
  {
    var r := st.(slots := st.slots - {x});
    forall d, p | d in Alive(r.trace) && Needs(r.trace, d, p) ensures HeldBy(r.slots, d, p) {
      assert HeldBy(st.slots, d, p);
    }
  }

  lemma {:induction false} DetachKeeps(st: State, x: Slot, dying: set<Obj>)
    requires Linked(st) && Tight(st, dying) && x in st.slots && (x.Member? ==> x.of in dying)
    ensures var r := Detach(st, x);
            Linked(r) && Tight(r, dying) && x !in r.slots && Shrunk(st.(slots := st.slots - {x}), r, dying)
    decreases Rank(st.slots[x]), 2
  {
    var o, st' := st.slots[x], st.(slots := st.slots - {x});
    DropKeeps(st, x);
    forall p | p in Alive(st'.trace) && p != o ensures Owned(st'.slots, p) {
      var y :| y in st.slots && st.slots[y] == p;
      assert st'.slots[y] == p;
    }
    if !Owned(st'.slots, o) {
      DestroyKeeps(st', o, dying);
    }
  }

  lemma {:induction false} DestroyKeeps(st: State, o: Obj, dying: set<Obj>)
    requires Linked(st) && AllOwnedBut(st, {o}) && MembersOf(st, dying)
    requires o in Alive(st.trace) && !Owned(st.slots, o)
    ensures var r := Destroy(st, o);
            Linked(r) && Tight(r, dying) && Shrunk(st, r, dying) && o !in Alive(r.trace)
    decreases Rank(o), 1
  {
    var st1 := Emit(st, Release(o));
    ReleaseKeeps(st, o);
    var d := dying + {o};
    var st2 := DetachMember(st1, o, TheSession);
    DetachMemberKeeps(st1, o, TheSession, d);
    ShrinksOn(st, st1, st2, o, TheSession, dying);
    var st3 := DetachMember(st2, o, TheSocket);
    DetachMemberKeeps(st2, o, TheSocket, d);
    ShrinksOn(st, st2, st3, o, TheSocket, dying);
    var r := DetachMember(st3, o, TheLib);
    DetachMemberKeeps(st3, o, TheLib, d);
    ShrinksOn(st, st3, r, o, TheLib, dying);
    MembersGone(r, o, dying);
  }

  /** When no member of a destroyed object is left, its destruction is complete. */
  lemma MembersGone(r: State, o: Obj, dying: set<Obj>)
    requires Tight(r, dying + {o})
    requires Member(o, TheSession) !in r.slots && Member(o, TheSocket) !in r.slots && Member(o, TheLib) !in r.slots
    ensures Tight(r, dying)
  {
    forall f: Field ensures Member(o, f) !in r.slots {
      match f
      case TheSession =>
      case TheSocket =>
      case TheLib =>
    }
    forall x | x in r.slots && x.Member? ensures x.of in Alive(r.trace) || x.of in dying {
      assert Member(x.of, x.field) in r.slots;
    }
  }

  lemma ShrinksOn(st: State, a: State, b: State, o: Obj, f: Field, dying: set<Obj>)
    requires Shrunk(st, a, dying) && o !in dying
    requires Shrunk(a.(slots := a.slots - {Member(o, f)}), b, dying + {o})
    ensures Shrunk(st, b, dying) && forall x :: x in b.slots ==> x in a.slots
  {
  }

  lemma {:induction false} DetachMemberKeeps(st: State, o: Obj, f: Field, dying: set<Obj>)
    requires Linked(st) && Tight(st, dying) && o in dying
    ensures var r := DetachMember(st, o, f);
            && Linked(r) && Tight(r, dying) && Member(o, f) !in r.slots
            && Shrunk(st.(slots := st.slots - {Member(o, f)}), r, dying)
    decreases Rank(o), 0
  {
    var x := Member(o, f);
    if x in st.slots {
      DetachKeeps(st, x, dying);
    } else {
      assert st.slots - {x} == st.slots;
    }
  }

  // ----- every call keeps it

  /** The static pointer is set by the first call of `create` and lives until the program ends. */
  ghost predicate Static(st: State) {
    && (StaticPtr in st.slots ==> st.slots[StaticPtr] == Lib && !st.ended)
    && (Lib in Acquired(st.trace) ==> StaticPtr in st.slots || st.ended)
  }

  /** The members of an object point to the things it needs. */
  ghost predicate Needed(st: State) {
    forall x :: x in st.slots && x.Member? && x.of in Alive(st.trace) ==>
      Needs(st.trace, x.of, st.slots[x]) && x.field == FieldFor(st.slots[x])
  }

  ghost predicate Good(st: State) {
    Linked(st) && Tight(st, {}) && Static(st) && Needed(st)
  }

  /** The members of a new object are always new. */
  lemma NewMembers(st: State, o: Obj, f: Field)
    requires Good(st) && o != Lib && o.id == st.next
    ensures Member(o, f) !in st.slots
  {
  }

  lemma CopyKeeps(st: State, v: nat, o: Obj)
    requires Good(st) && Local(v) !in st.slots && o in Alive(st.trace)
    ensures Good(Attach(st, Local(v), o))
  {
    var r := Attach(st, Local(v), o);
    OwnersStay(st.slots, r.slots);
    HoldersStay(st, r);
  }

  /** Where pointers are only added, owned objects stay owned. */
  lemma OwnersStay(slots: map<Slot, Obj>, more: map<Slot, Obj>)
    requires forall x :: x in slots ==> x in more && more[x] == slots[x]
    ensures forall o :: Owned(slots, o) ==> Owned(more, o)
  {
    forall o | Owned(slots, o) ensures Owned(more, o) {
      var x :| x in slots && slots[x] == o;
      assert more[x] == o;
    }
  }

  lemma HoldersStay(st: State, r: State)
    requires forall x :: x in st.slots ==> x in r.slots && r.slots[x] == st.slots[x]
    requires Linked(st)
    ensures forall d, o :: d in Alive(st.trace) && Needs(st.trace, d, o) ==> HeldBy(r.slots, d, o)
  {
    forall d, o | d in Alive(st.trace) && Needs(st.trace, d, o) ensures HeldBy(r.slots, d, o) {
      assert HeldBy(st.slots, d, o);
    }
  }

  lemma AcquireKeeps(st: State, v: nat, o: Obj, f: Field, from: Obj)
    requires Linked(st) && Local(v) !in st.slots && from in Alive(st.trace) && FieldFor(from) == f
    requires o.Session? || o.Channel? || o.Listener?
    requires o.id == st.next && from == (if o.Session? then Lib else Session(o.session))
    requires Member(o, f) !in st.slots
    ensures Linked(Make(st, v, o, f, from))
  {
    var r := Make(st, v, o, f, from);
    assert o !in Acquired(st.trace);
    HoldersStay(st, r);
    forall d, p | d in Alive(r.trace) && Needs(r.trace, d, p) ensures HeldBy(r.slots, d, p) {
      if d != o {
        assert Needs(st.trace, d, p);
      }
    }
  }

  lemma MakeKeeps(st: State, v: nat, o: Obj, f: Field, from: Obj)
    requires Good(st) && Local(v) !in st.slots && from in Alive(st.trace) && FieldFor(from) == f
    requires o.Session? || o.Channel? || o.Listener?
    requires o.id == st.next && from == (if o.Session? then Lib else Session(o.session))
    ensures Good(Make(st, v, o, f, from))
  {
    var r := Make(st, v, o, f, from);
    assert o !in Acquired(st.trace);
    assert Member(o, f) !in st.slots;
    OwnersStay(st.slots, r.slots);
    AcquireKeeps(st, v, o, f, from);
    MakeNeeded(st, v, o, f, from);
    assert r.slots[Local(v)] == o;
  }

  lemma MakeNeeded(st: State, v: nat, o: Obj, f: Field, from: Obj)
    requires Needed(st) && FieldFor(from) == f && Needs(st.trace, o, from)
    requires forall x :: x in st.slots && x.Member? ==> x.of != o
    ensures Needed(Make(st, v, o, f, from))
  {
    var r := Make(st, v, o, f, from);
    assert Bound(r.trace) == Bound(st.trace);
    forall x | x in r.slots && x.Member? && x.of in Alive(r.trace) && x != Member(o, f)
      ensures Needs(r.trace, x.of, r.slots[x]) && x.field == FieldFor(r.slots[x])
    {
      assert Needs(st.trace, x.of, st.slots[x]);
    }
  }

  lemma CreateKeeps(st: State, v: nat, initOk: bool)
    requires Good(st) && Enabled(st, Create(v, initOk))
    ensures Good(Step(st, Create(v, initOk)))
  {
    if StaticPtr in st.slots {
      CopyKeeps(st, v, Lib);
    } else if initOk {
      InitKeeps(st);
      CopyKeeps(Attach(Emit(st, Acquire(Lib)), StaticPtr, Lib), v, Lib);
    }
  }

  lemma InitKeeps(st: State)
    requires Good(st) && StaticPtr !in st.slots && !st.ended
    ensures Good(Attach(Emit(st, Acquire(Lib)), StaticPtr, Lib))
  {
    var r := Attach(Emit(st, Acquire(Lib)), StaticPtr, Lib);
    assert Bound(r.trace) == Bound(st.trace) && Alive(r.trace) == Alive(st.trace) + {Lib};
    OwnersStay(st.slots, r.slots);
    HoldersStay(st, r);
    assert r.slots[StaticPtr] == Lib;
    forall d, p ensures Needs(r.trace, d, p) <==> Needs(st.trace, d, p) {
    }
  }

  lemma NewSocketKeeps(st: State, v: nat, opens: bool, connects: bool)
    requires Good(st) && Enabled(st, NewSocket(v, opens, connects))
    ensures Good(Step(st, NewSocket(v, opens, connects)))
  {
    var r, k := Step(st, NewSocket(v, opens, connects)), Socket(st.next);
    if opens {
      assert k !in Acquired(st.trace);
      OwnersStay(st.slots, r.slots);
      HoldersStay(st, r);
      forall d, p | d in Alive(st.trace) && Needs(st.trace, d, p) ensures p != k && HeldBy(r.slots, d, p) {
        assert HeldBy(st.slots, d, p);
      }
      if connects {
        assert r.slots[Local(v)] == k;
        forall d, p | d in Alive(r.trace) && Needs(r.trace, d, p) ensures HeldBy(r.slots, d, p) {
          assert Needs(st.trace, d, p);
        }
      } else {
        var m := Emit(st, Acquire(k));
        assert Bound(m.trace) == Bound(st.trace) && Alive(m.trace) == Alive(st.trace) + {k};
        assert Bound(r.trace) == Bound(m.trace) && Acquired(r.trace) == Acquired(m.trace);
        assert Alive(r.trace) == Alive(m.trace) - {k};
        forall d | d in Alive(m.trace) ensures !Needs(m.trace, d, k) {
          assert d != k ==> (Needs(m.trace, d, k) <==> Needs(st.trace, d, k));
        }
        forall d, p | d in Alive(r.trace) && Needs(r.trace, d, p) ensures HeldBy(r.slots, d, p) {
          assert Needs(st.trace, d, p);
        }
      }
    }
  }

  lemma OwnersAfterRebind(slots: map<Slot, Obj>, x: Slot, k: Obj)
    requires x in slots
    ensures forall o :: Owned(slots, o) && o != slots[x] ==> Owned(slots[x := k], o)
  {
    forall o | Owned(slots, o) && o != slots[x] ensures Owned(slots[x := k], o) {
      var y :| y in slots && slots[y] == o;
      assert slots[x := k][y] == o;
    }
  }

  lemma BindKeeps(st: State, s: Obj, k: Obj)
    requires Linked(st) && s in Alive(st.trace) && k in Alive(st.trace) && s.Session? && k.Socket?
    ensures Linked(Attach(Emit(st, Bind(s.id, k.id)), Member(s, TheSocket), k))
  {
    var r := Attach(Emit(st, Bind(s.id, k.id)), Member(s, TheSocket), k);
    forall d, p | d in Alive(r.trace) && Needs(r.trace, d, p) ensures HeldBy(r.slots, d, p) {
      if d != s || p != k {
        assert Needs(st.trace, d, p);
        assert HeldBy(st.slots, d, p);
      }
    }
  }

  /** The new socket is bound; then the old one, if this was the last pointer to it, is closed. */
  lemma RebindKeeps(st: State, s: Obj, k: Obj)
    requires Good(st) && s in Alive(st.trace) && k in Alive(st.trace) && s.Session? && k.Socket?
    ensures var bound := Emit(st, Bind(s.id, k.id));
            var r := Rebind(bound, s, k);
            && Linked(r) && Tight(r, {}) && Shrunk(Attach(bound, Member(s, TheSocket), k), r, {})
            && Allowed(r.trace, Shake(s.id, k.id))
  {
    var x := Member(s, TheSocket);
    var st' := Attach(Emit(st, Bind(s.id, k.id)), x, k);
    BindKeeps(st, s, k);
    TakenIsTight(st, s, k);
    if x in st.slots && !Owned(st'.slots, st.slots[x]) {
      DestroyKeeps(st', st.slots[x], {});
    }
    var r := Rebind(Emit(st, Bind(s.id, k.id)), s, k);
    assert r.slots[Member(s, TheSocket)] == k;
  }

  /** When the session has taken the new socket, only the old one may be without an owner. */
  lemma TakenIsTight(st: State, s: Obj, k: Obj)
    requires Tight(st, {}) && s in Alive(st.trace) && k in Alive(st.trace) && s.Session? && k.Socket?
    ensures var x := Member(s, TheSocket);
            var st' := Attach(Emit(st, Bind(s.id, k.id)), x, k);
            MembersOf(st', {}) && AllOwnedBut(st', if x in st.slots then {st.slots[x]} else {})
  {
    var x := Member(s, TheSocket);
    if x in st.slots {
      OwnersAfterRebind(st.slots, x, k);
    } else {
      OwnersStay(st.slots, st.slots[x := k]);
    }
  }

  lemma HandshakeKeeps(st: State, s: Obj, k: Obj)
    requires Good(st) && s in Alive(st.trace) && k in Alive(st.trace) && s.Session? && k.Socket?
    ensures Good(Shaken(st, s, k))
  {
    var taken := Attach(Emit(st, Bind(s.id, k.id)), Member(s, TheSocket), k);
    var r := Rebind(Emit(st, Bind(s.id, k.id)), s, k);
    RebindKeeps(st, s, k);
    NeededBind(st, s, k);
    NeededShrinks(taken, r);
    ShakeKeeps(r, s, k);
  }

  lemma ShakeKeeps(st: State, s: Obj, k: Obj)
    requires Good(st) && s.Session? && k.Socket? && Allowed(st.trace, Shake(s.id, k.id))
    ensures Good(Emit(st, Shake(s.id, k.id)))
  {
    var r := Emit(st, Shake(s.id, k.id));
    assert Alive(r.trace) == Alive(st.trace) && Bound(r.trace) == Bound(st.trace);
    forall d, o ensures Needs(r.trace, d, o) <==> Needs(st.trace, d, o) {
    }
  }

  lemma NeededBind(st: State, s: Obj, k: Obj)
    requires Needed(st) && s.Session? && k.Socket?
    ensures Needed(Attach(Emit(st, Bind(s.id, k.id)), Member(s, TheSocket), k))
  {
    var r := Attach(Emit(st, Bind(s.id, k.id)), Member(s, TheSocket), k);
    forall x | x in r.slots && x.Member? && x.of in Alive(r.trace) && x != Member(s, TheSocket)
      ensures Needs(r.trace, x.of, r.slots[x]) && x.field == FieldFor(r.slots[x])
    {
      assert Needs(st.trace, x.of, st.slots[x]);
    }
  }

  lemma NeededShrinks(st: State, r: State)
    requires Needed(st) && Shrunk(st, r, {})
    ensures Needed(r)
  {
    forall x | x in r.slots && x.Member? && x.of in Alive(r.trace)
      ensures Needs(r.trace, x.of, r.slots[x]) && x.field == FieldFor(r.slots[x])
    {
      assert Needs(st.trace, x.of, st.slots[x]);
    }
  }

  lemma DetachRootKeeps(st: State, x: Slot)
    requires Linked(st) && Tight(st, {}) && Needed(st) && x in st.slots && IsRoot(x)
    ensures var r := Detach(st, x);
            Linked(r) && Tight(r, {}) && Needed(r) && Shrunk(st.(slots := st.slots - {x}), r, {})
  {
    DetachKeeps(st, x, {});
    NeededShrinks(st.(slots := st.slots - {x}), Detach(st, x));
  }

  /** Every call keeps the invariants. */
  lemma StepKeeps(st: State, op: Op)
    requires Good(st) && Enabled(st, op)
    ensures Good(Step(st, op))
  {
    match op
    case Create(v, initOk) => CreateKeeps(st, v, initOk);
    case NewSocket(v, opens, connects) => NewSocketKeeps(st, v, opens, connects);
    case NewSession(v, l) => MakeKeeps(st, v, Session(st.next), TheLib, Lib);
    case Handshake(sv, kv) => HandshakeKeeps(st, st.slots[Local(sv)], st.slots[Local(kv)]);
    case NewChannel(v, sv, opens) =>
      if opens {
        var s := st.slots[Local(sv)];
        MakeKeeps(st, v, Channel(st.next, s.id), TheSession, s);
      }
    case NewListener(v, sv, listens) =>
      if listens {
        var s := st.slots[Local(sv)];
        MakeKeeps(st, v, Listener(st.next, s.id), TheSession, s);
      }
    case Copy(v, x) => CopyKeeps(st, v, st.slots[Local(x)]);
    case Drop(v) => DetachRootKeeps(st, Local(v));
    case End => if StaticPtr in st.slots { DetachRootKeeps(st, StaticPtr); }
  }

  /** Over every run: the events come in the order the library asks for, pointers point to objects that
      exist, and there is no garbage. */
  lemma {:induction false} EveryRunIsGood(ops: seq<Op>)
    ensures Good(Run(ops))
  {
    if ops != [] {
      var front, op := ops[..|ops| - 1], ops[|ops| - 1];
      EveryRunIsGood(front);
      if Enabled(Run(front), op) {
        StepKeeps(Run(front), op);
      }
    }
  }

  // ----- what follows

  /** How often something has happened. */
  ghost function Times(t: Trace, e: Event): nat {
    if t.Start? then 0 else Times(t.before, e) + if t.event == e then 1 else 0
  }

  ghost function TimesLost(t: Trace, o: Obj): nat {
    if o.Socket? then Times(t, Lose(o.id)) else 0
  }

  /** Every handle is acquired once at most, and then it has been released once, or it exists, or its
      connect has failed. In particular `libssh2_init` and `libssh2_exit` are called once at most. */
  lemma {:induction false} AcquiredOnceReleasedOnce(t: Trace, o: Obj)
    requires Ordered(t)
    ensures Times(t, Acquire(o)) == (if o in Acquired(t) then 1 else 0)
    ensures Times(t, Acquire(o)) == Times(t, Release(o)) + TimesLost(t, o) + if o in Alive(t) then 1 else 0
  {
    if t.Then? {
      AcquiredOnceReleasedOnce(t.before, o);
    }
  }

  /** From `t0` to `t` handles have been released, and nothing else has happened. */
  ghost predicate OnlyReleases(t0: Trace, t: Trace) {
    t == t0 || (t.Then? && t.event.Release? && OnlyReleases(t0, t.before))
  }

  lemma {:induction false} OnlyReleasesTwice(t0: Trace, t1: Trace, t2: Trace)
    requires OnlyReleases(t0, t1) && OnlyReleases(t1, t2)
    ensures OnlyReleases(t0, t2)
  {
    if t2 != t1 {
      OnlyReleasesTwice(t0, t1, t2.before);
    }
  }

  lemma {:induction false} DetachOnlyReleases(st: State, x: Slot)
    requires x in st.slots
    ensures OnlyReleases(st.trace, Detach(st, x).trace)
    decreases Rank(st.slots[x]), 2
  {
    var o, st' := st.slots[x], st.(slots := st.slots - {x});
    if !Owned(st'.slots, o) {
      DestroyOnlyReleases(st', o);
    }
  }

  lemma {:induction false} DestroyOnlyReleases(st: State, o: Obj)
    ensures OnlyReleases(st.trace, Destroy(st, o).trace)
    decreases Rank(o), 1
  {
    var st1 := Emit(st, Release(o));
    var st2 := DetachMember(st1, o, TheSession);
    var st3 := DetachMember(st2, o, TheSocket);
    MemberOnlyReleases(st1, o, TheSession);
    MemberOnlyReleases(st2, o, TheSocket);
    MemberOnlyReleases(st3, o, TheLib);
    assert OnlyReleases(st.trace, st1.trace);
    OnlyReleasesTwice(st.trace, st1.trace, st2.trace);
    OnlyReleasesTwice(st.trace, st2.trace, st3.trace);
    OnlyReleasesTwice(st.trace, st3.trace, Destroy(st, o).trace);
  }

  lemma {:induction false} MemberOnlyReleases(st: State, o: Obj, f: Field)
    ensures OnlyReleases(st.trace, DetachMember(st, o, f).trace)
    decreases Rank(o), 0
  {
    var x := Member(o, f);
    if x in st.slots && Rank(st.slots[x]) < Rank(o) {
      DetachOnlyReleases(st, x);
    }
  }

  /** How many descriptors have been lost: opened, and never to be closed. */
  ghost function Losses(t: Trace): nat {
    if t.Start? then 0 else Losses(t.before) + if t.event.Lose? then 1 else 0
  }

  lemma {:induction false} ReleasesLoseNothing(t0: Trace, t: Trace)
    requires OnlyReleases(t0, t)
    ensures Losses(t) == Losses(t0)
  {
    if t != t0 {
      ReleasesLoseNothing(t0, t.before);
    }
  }

  lemma DetachLosesNothing(st: State, x: Slot)
    requires x in st.slots
    ensures Losses(Detach(st, x).trace) == Losses(st.trace)
  {
    DetachOnlyReleases(st, x);
    ReleasesLoseNothing(st.trace, Detach(st, x).trace);
  }

  lemma HandshakeLosesNothing(st: State, s: Obj, k: Obj)
    requires s.Session? && k.Socket?
    ensures Losses(Shaken(st, s, k).trace) == Losses(st.trace)
  {
    var bound := Emit(st, Bind(s.id, k.id));
    var x := Member(s, TheSocket);
    var taken := Attach(bound, x, k);
    if x in st.slots && !Owned(taken.slots, st.slots[x]) {
      DestroyOnlyReleases(taken, st.slots[x]);
      ReleasesLoseNothing(taken.trace, Rebind(bound, s, k).trace);
    }
  }

  /** The call loses a descriptor: the socket opens, and the connect in its constructor fails. */
  predicate Loses(op: Op) {
    op.NewSocket? && op.opens && !op.connects
  }

  /** No other call does. */
  lemma StepLoses(st: State, op: Op)
    requires Enabled(st, op)
    ensures Losses(Step(st, op).trace) == Losses(st.trace) + if Loses(op) then 1 else 0
  {
    match op
    case Drop(v) => DetachLosesNothing(st, Local(v));
    case End => if StaticPtr in st.slots { DetachLosesNothing(st, StaticPtr); }
    case Handshake(s, k) => HandshakeLosesNothing(st, st.slots[Local(s)], st.slots[Local(k)]);
    case _ =>
  }

  /** A session is freed after all its channels and listeners, and its socket is closed and the library
      left only after that. */
  lemma ReleasedAfterItsUsers(t: Trace, d: Obj)
    requires Ordered(t) && t.Then? && t.event.Release?
    requires d in Acquired(t.before) && Needs(t.before, d, t.event.o)
    ensures Times(t.before, Release(d)) == 1
  {
    AcquiredOnceReleasedOnce(t.before, d);
  }

  /** The object is held by a variable or by the static pointer, or by an object that is. */
  ghost predicate Kept(slots: map<Slot, Obj>, o: Obj)
    decreases 2 - Rank(o)
  {
    exists x :: x in slots && slots[x] == o && (IsRoot(x) || (Rank(o) < Rank(x.of) && Kept(slots, x.of)))
  }

  /** An object exists exactly as long as it is held by a variable, directly or through other objects:
      nothing is destroyed too early, and nothing leaks. */
  lemma {:induction false} ExistsExactlyWhileKept(st: State, o: Obj)
    requires Good(st)
    ensures o in Alive(st.trace) <==> Kept(st.slots, o)
    decreases 2 - Rank(o)
  {
    if o in Alive(st.trace) {
      assert Owned(st.slots, o);
      var x :| x in st.slots && st.slots[x] == o;
      if x.Member? {
        ExistsExactlyWhileKept(st, x.of);
      }
    }
  }

  /** When the variables and the static pointer are gone, nothing exists any more. */
  lemma AllGoneAtTheEnd(st: State)
    requires Good(st) && forall x :: x in st.slots ==> !IsRoot(x)
    ensures Alive(st.trace) == {}
  {
    forall o ensures !Kept(st.slots, o) {
      NothingKept(st.slots, o);
    }
    forall o ensures o !in Alive(st.trace) {
      ExistsExactlyWhileKept(st, o);
    }
  }

  lemma {:induction false} NothingKept(slots: map<Slot, Obj>, o: Obj)
    requires forall x :: x in slots ==> !IsRoot(x)
    ensures !Kept(slots, o)
    decreases 2 - Rank(o)
  {
    forall x | x in slots && slots[x] == o && Rank(o) < Rank(x.of) ensures !Kept(slots, x.of) {
      NothingKept(slots, x.of);
    }
  }

  /** A channel keeps its session, the session's socket and the library. */
  lemma ChannelKeepsAll(st: State, c: Obj)
    requires Good(st) && c in Alive(st.trace) && c.Channel?
    ensures Session(c.session) in Alive(st.trace) && Lib in Alive(st.trace)
    ensures c.session in Bound(st.trace) ==> Socket(Bound(st.trace)[c.session]) in Alive(st.trace)
  {
    var s := Session(c.session);
    assert Needs(st.trace, c, s);
    assert HeldBy(st.slots, c, s);
    assert Needs(st.trace, s, Lib);
    assert HeldBy(st.slots, s, Lib);
    if c.session in Bound(st.trace) {
      var k := Socket(Bound(st.trace)[c.session]);
      assert Needs(st.trace, s, k);
      assert HeldBy(st.slots, s, k);
    }
  }

  // ----- variables, and what depends on them

  ghost predicate SameAt(a: map<Slot, Obj>, b: map<Slot, Obj>, x: Slot) {
    (x in a <==> x in b) && (x in a ==> a[x] == b[x])
  }

  /** The variables a call is about. */
  ghost function Touched(op: Op): set<Slot> {
    match op
    case Create(v, _) => {StaticPtr, Local(v)}
    case Handshake(_, _) => {}
    case End => {StaticPtr}
    case _ => {Local(op.v)}
  }

  lemma DetachLeavesOthers(st: State, x: Slot)
    requires Good(st) && x in st.slots && IsRoot(x)
    ensures x !in Detach(st, x).slots
    ensures forall y :: IsRoot(y) && y != x ==> SameAt(st.slots, Detach(st, x).slots, y)
  {
    DetachKeeps(st, x, {});
  }

  lemma HandshakeLeavesOthers(st: State, s: Obj, k: Obj)
    requires Good(st) && s in Alive(st.trace) && k in Alive(st.trace) && s.Session? && k.Socket?
    ensures forall y :: IsRoot(y) ==> SameAt(st.slots, Shaken(st, s, k).slots, y)
  {
    RebindKeeps(st, s, k);
  }

  /** A call leaves every other variable alone, whatever it destroys. */
  lemma OtherVariablesStay(st: State, op: Op)
    requires Good(st) && Enabled(st, op)
    ensures forall x :: IsRoot(x) && x !in Touched(op) ==> SameAt(st.slots, Step(st, op).slots, x)
    ensures op.Drop? ==> Local(op.v) !in Step(st, op).slots
    ensures op.End? ==> StaticPtr !in Step(st, op).slots
  {
    match op
    case Drop(v) => DetachLeavesOthers(st, Local(v));
    case End => if StaticPtr in st.slots { DetachLeavesOthers(st, StaticPtr); }
    case Handshake(sv, kv) => HandshakeLeavesOthers(st, st.slots[Local(sv)], st.slots[Local(kv)]);
    case _ =>
  }

  /** `r` is a later state than `st`, and the objects that were there in `st` have got no new members
      and no new socket since. */
  ghost predicate Since(st: State, r: State) {
    && Acquired(st.trace) <= Acquired(r.trace)
    && (forall x :: x in r.slots && x.Member? && x.of in Acquired(st.trace) ==> SameAt(st.slots, r.slots, x))
    && (forall s :: Session(s) in Acquired(st.trace) ==>
          (s in Bound(st.trace) <==> s in Bound(r.trace))
          && (s in Bound(r.trace) ==> Bound(r.trace)[s] == Bound(st.trace)[s]))
  }

  lemma SinceShrinks(st: State, now: State, r: State)
    requires Since(st, now) && Shrunk(now, r, {})
    ensures Since(st, r)
  {
    forall x | x in r.slots && x.Member? && x.of in Acquired(st.trace) ensures SameAt(st.slots, r.slots, x) {
      assert SameAt(st.slots, now.slots, x);
    }
  }

  lemma SinceStep(st: State, now: State, op: Op)
    requires Since(st, now) && Good(now) && Enabled(now, op)
    requires op.Handshake? ==> now.slots[Local(op.session)] !in Acquired(st.trace)
    ensures Since(st, Step(now, op))
  {
    match op
    case Drop(v) => SinceDetach(st, now, Local(v));
    case End => if StaticPtr in now.slots { SinceDetach(st, now, StaticPtr); }
    case Handshake(sv, kv) => SinceRebind(st, now, now.slots[Local(sv)], now.slots[Local(kv)]);
    case _ => SinceOther(st, now, op);
  }

  lemma SinceDetach(st: State, now: State, x: Slot)
    requires Since(st, now) && Good(now) && x in now.slots && IsRoot(x)
    ensures Since(st, Detach(now, x))
  {
    DetachRootKeeps(now, x);
    SinceShrinks(st, now.(slots := now.slots - {x}), Detach(now, x));
  }

  lemma SinceRebind(st: State, now: State, s: Obj, k: Obj)
    requires Since(st, now) && Good(now) && s in Alive(now.trace) && k in Alive(now.trace) && s.Session? && k.Socket?
    requires s !in Acquired(st.trace)
    ensures Since(st, Shaken(now, s, k))
  {
    RebindKeeps(now, s, k);
    var bound := Emit(now, Bind(s.id, k.id));
    SinceAttach(st, bound, Member(s, TheSocket), k);
    SinceShrinks(st, Attach(bound, Member(s, TheSocket), k), Rebind(bound, s, k));
  }

  lemma SinceAttach(st: State, now: State, x: Slot, o: Obj)
    requires Since(st, now) && (x.Member? ==> x.of !in Acquired(st.trace))
    ensures Since(st, Attach(now, x, o))
  {
    var r := Attach(now, x, o);
    forall y | y in r.slots && y.Member? && y.of in Acquired(st.trace) ensures SameAt(st.slots, r.slots, y) {
      assert SameAt(st.slots, now.slots, y);
    }
  }

  lemma SinceOther(st: State, now: State, op: Op)
    requires Since(st, now) && Good(now) && Enabled(now, op)
    requires !op.Drop? && !op.End? && !op.Handshake?
    ensures Since(st, Step(now, op))
  {
    var r := Step(now, op);
    forall x | x in r.slots && x.Member? && x.of in Acquired(st.trace) ensures SameAt(st.slots, r.slots, x) {
      assert x.of in Acquired(now.trace);
      assert SameAt(st.slots, now.slots, x);
    }
  }

  /** The variables decide what exists: if a program has the same variables as at an earlier moment,
      and the objects of that moment have not been changed, then the same objects exist, but for the
      library, which the static pointer keeps. */
  lemma {:induction false} VariablesDecide(st: State, r: State, o: Obj)
    requires Good(st) && Good(r) && Since(st, r) && o != Lib
    requires forall x :: IsRoot(x) && x != StaticPtr ==> SameAt(st.slots, r.slots, x)
    ensures o in Alive(st.trace) <==> o in Alive(r.trace)
    decreases 2 - Rank(o)
  {
    if o in Alive(r.trace) {
      assert Owned(r.slots, o);
      var x :| x in r.slots && r.slots[x] == o;
      if x.Member? {
        VariablesDecide(st, r, x.of);
      }
      assert SameAt(st.slots, r.slots, x);
    }
    if o in Alive(st.trace) {
      assert Owned(st.slots, o);
      var x :| x in st.slots && st.slots[x] == o;
      if x.Member? {
        VariablesDecide(st, r, x.of);
        assert Needs(st.trace, x.of, o);
        assert Needs(r.trace, x.of, o);
        assert HeldBy(r.slots, x.of, o);
      } else {
        assert SameAt(st.slots, r.slots, x);
      }
    }
  }
}
