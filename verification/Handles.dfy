/** The wrapper classes of `src/libssh2` as they run: every object has a use count, as with
    `std::shared_ptr`, and is destroyed when its count drops to zero. The contracts say that this does
    what `Ownership.dfy` describes without counts. */
module Handles {
  import opened Ownership
  import opened Results

  ghost function Owners(slots: map<Slot, Obj>, o: Obj): set<Slot> {
    set x | x in slots && slots[x] == o
  }

  /** Every count is the number of pointers to the object, and only owned objects have one. */
  ghost predicate Counted(slots: map<Slot, Obj>, counts: map<Obj, nat>) {
    forall o :: (o in counts <==> Owned(slots, o)) && (o in counts ==> counts[o] == |Owners(slots, o)|)
  }

  /** The count of `o` is one too high. */
  ghost predicate OverCounted(slots: map<Slot, Obj>, counts: map<Obj, nat>, o: Obj) {
    && o in counts && counts[o] == |Owners(slots, o)| + 1
    && forall p :: p != o ==> (p in counts <==> Owned(slots, p)) && (p in counts ==> counts[p] == |Owners(slots, p)|)
  }

  lemma OwnedIsCounted(slots: map<Slot, Obj>, o: Obj)
    ensures Owned(slots, o) <==> |Owners(slots, o)| > 0
  {
    if Owned(slots, o) {
      var x :| x in slots && slots[x] == o;
      assert x in Owners(slots, o);
    } else {
      assert Owners(slots, o) == {};
    }
  }

  lemma OwnersAdded(slots: map<Slot, Obj>, x: Slot, o: Obj, p: Obj)
    requires x !in slots
    ensures |Owners(slots[x := o], p)| == |Owners(slots, p)| + if p == o then 1 else 0
    ensures Owned(slots[x := o], p) <==> Owned(slots, p) || p == o
  {
    var s := slots[x := o];
    assert Owners(s, p) == Owners(slots, p) + if p == o then {x} else {};
    OwnedIsCounted(slots, p);
    OwnedIsCounted(s, p);
  }

  lemma OwnersRemoved(slots: map<Slot, Obj>, x: Slot)
    requires x in slots
    ensures forall p :: Owners(slots - {x}, p) == Owners(slots, p) - {x}
  {
  }

  lemma AddPointer(slots: map<Slot, Obj>, counts: map<Obj, nat>, x: Slot, o: Obj)
    requires Counted(slots, counts) && x !in slots
    ensures Counted(slots[x := o], counts[o := if o in counts then counts[o] + 1 else 1])
  {
    var s, c := slots[x := o], counts[o := if o in counts then counts[o] + 1 else 1];
    forall p ensures (p in c <==> Owned(s, p)) && (p in c ==> c[p] == |Owners(s, p)|) {
      OwnersAdded(slots, x, o, p);
      OwnedIsCounted(slots, p);
    }
  }

  lemma RemovePointer(slots: map<Slot, Obj>, counts: map<Obj, nat>, x: Slot)
    requires Counted(slots, counts) && x in slots
    ensures OverCounted(slots - {x}, counts, slots[x])
  {
    var s, o := slots - {x}, slots[x];
    assert Owned(slots, o);
    OwnersRemoved(slots, x);
    assert x in Owners(slots, o);
    forall p | p != o ensures (p in counts <==> Owned(s, p)) && (p in counts ==> counts[p] == |Owners(s, p)|) {
      assert Owners(s, p) == Owners(slots, p);
      OwnedIsCounted(slots, p);
      OwnedIsCounted(s, p);
    }
  }

  /** What the calls into libssh2 and the operating system return in the constructor of `SSH`. */
  datatype Replies = Replies(init: bool, opens: bool, connects: bool, handshake: bool,
                             offersPassword: bool, authenticates: bool, channelOpens: bool, shell: bool)

  ghost function AfterScope(st: State, s: nat, k: nat, l: nat): State {
    Do(Do(Do(st, Drop(s)), Drop(k)), Drop(l))
  }

  ghost predicate CanLeave(st: State, s: nat, k: nat, l: nat) {
    Enabled(st, Drop(s)) && Enabled(Step(st, Drop(s)), Drop(k)) && Enabled(Step(Step(st, Drop(s)), Drop(k)), Drop(l))
  }

  /** The constructor of `SSH` up to the socket, as a run of calls. */
  ghost function AfterConnect(st: State, k: nat, l: nat, r: Replies): (State, bool) {
    var st1 := Do(st, Op.Create(l, r.init));
    if Local(l) !in st1.slots then (st1, false)
    else
      var st2 := Do(st1, Op.NewSocket(k, r.opens, r.connects));
      if Local(k) in st2.slots then (st2, true) else (Do(st2, Drop(l)), false)
  }

  ghost predicate CanConnect(st: State, k: nat, l: nat, r: Replies) {
    && Enabled(st, Op.Create(l, r.init))
    && var st1 := Step(st, Op.Create(l, r.init));
       Local(l) in st1.slots ==>
         && Enabled(st1, Op.NewSocket(k, r.opens, r.connects))
         && var st2 := Step(st1, Op.NewSocket(k, r.opens, r.connects));
            Local(k) !in st2.slots ==> Enabled(st2, Drop(l))
  }

  /** The constructor up to the channel. */
  ghost function AfterOpen(st: State, s: nat, k: nat, l: nat, r: Replies): (State, bool) {
    var (st1, ok) := AfterConnect(st, k, l, r);
    if !ok then (st1, false)
    else
      var st2 := Do(Do(st1, Op.NewSession(s, l)), Op.Handshake(s, k));
      if r.handshake && r.offersPassword && r.authenticates then (st2, true)
      else (AfterScope(st2, s, k, l), false)
  }

  ghost predicate CanOpen(st: State, s: nat, k: nat, l: nat, r: Replies) {
    && CanConnect(st, k, l, r)
    && var (st1, ok) := AfterConnect(st, k, l, r);
       ok ==>
         && Enabled(st1, Op.NewSession(s, l))
         && var st2 := Step(st1, Op.NewSession(s, l));
            && Enabled(st2, Op.Handshake(s, k))
            && CanLeave(Step(st2, Op.Handshake(s, k)), s, k, l)
  }

  /** The channel, and the end of the scope. */
  ghost function AfterChannel(st: State, v: nat, s: nat, k: nat, l: nat, r: Replies): (State, bool) {
    var now := AfterScope(Do(st, Op.NewChannel(v, s, r.channelOpens)), s, k, l);
    if r.channelOpens && !r.shell then (Do(now, Drop(v)), false) else (now, r.channelOpens)
  }

  ghost predicate CanFinish(st: State, v: nat, s: nat, k: nat, l: nat, r: Replies) {
    && Enabled(st, Op.NewChannel(v, s, r.channelOpens))
    && var now := Step(st, Op.NewChannel(v, s, r.channelOpens));
       && CanLeave(now, s, k, l)
       && (r.channelOpens <==> Local(v) in now.slots)
       && (r.channelOpens ==> Enabled(AfterScope(now, s, k, l), Drop(v)))
  }

  /** The whole of it. */
  ghost function AfterSsh(st: State, v: nat, s: nat, k: nat, l: nat, r: Replies): (State, bool) {
    var (now, ok) := AfterOpen(st, s, k, l, r);
    if ok then AfterChannel(now, v, s, k, l, r) else (now, false)
  }

  ghost predicate CanConstruct(st: State, v: nat, s: nat, k: nat, l: nat, r: Replies) {
    && CanOpen(st, s, k, l, r)
    && var (now, ok) := AfterOpen(st, s, k, l, r);
       ok ==> CanFinish(now, v, s, k, l, r)
  }

  /** The channel is the one new variable, and it keeps session, socket and library. */
  ghost predicate OnlyChannelIsNew(st: State, now: State, v: nat) {
    && (forall x :: IsRoot(x) && x != StaticPtr && x != Local(v) ==> SameAt(st.slots, now.slots, x))
    && ChannelAt(now, v)
  }

  /** There is no new variable, and nothing exists that did not exist before, but for the library. */
  ghost predicate NothingIsNew(st: State, now: State) {
    && (forall x :: IsRoot(x) && x != StaticPtr ==> SameAt(st.slots, now.slots, x))
    && (forall o :: o != Lib ==> (o in Alive(st.trace) <==> o in Alive(now.trace)))
  }

  /** What the constructor promises. It succeeds exactly when every step does. One descriptor is lost
      exactly if a socket has opened and not connected. */
  ghost predicate SshResult(st: State, now: State, v: nat, r: Replies, ok: bool) {
    && Good(now)
    && (ok <==> Opens(st, r) && r.channelOpens && r.shell)
    && (if ok then OnlyChannelIsNew(st, now, v) else NothingIsNew(st, now))
    && Losses(now.trace) == Losses(st.trace) + if LosesSocket(st, r) then 1 else 0
  }

  ghost predicate Opens(st: State, r: Replies) {
    (StaticPtr in st.slots || r.init) && r.opens && r.connects && r.handshake && r.offersPassword && r.authenticates
  }

  /** The constructor gets as far as a socket that opens and does not connect. */
  ghost predicate LosesSocket(st: State, r: Replies) {
    (StaticPtr in st.slots || r.init) && r.opens && !r.connects
  }

  /** The variable holds a session that is newer than `st0` and is bound to a socket. */
  ghost predicate SessionAt(st0: State, now: State, s: nat) {
    && Local(s) in now.slots && now.slots[Local(s)].Session?
    && now.slots[Local(s)] !in Acquired(st0.trace) && now.slots[Local(s)].id in Bound(now.trace)
  }

  /** The variable holds a channel, and with it its session, the session's socket and the library. */
  ghost predicate ChannelAt(now: State, v: nat) {
    && Local(v) in now.slots && now.slots[Local(v)].Channel?
    && var s := now.slots[Local(v)].session;
       && Session(s) in Alive(now.trace) && Lib in Alive(now.trace)
       && s in Bound(now.trace) && Socket(Bound(now.trace)[s]) in Alive(now.trace)
  }

  /** `now` is reached from `st` by calls that are about the variables `mine` and new objects. */
  ghost predicate During(st: State, now: State, mine: set<Slot>) {
    && Good(st) && Good(now) && Since(st, now) && now.ended == st.ended
    && forall x :: IsRoot(x) && x !in mine ==> SameAt(st.slots, now.slots, x)
  }

  lemma StepDuring(st: State, now: State, op: Op, mine: set<Slot>)
    requires During(st, now, mine) && Enabled(now, op) && Touched(op) <= mine && !op.End?
    requires op.Handshake? ==> now.slots[Local(op.session)] !in Acquired(st.trace)
    ensures During(st, Step(now, op), mine)
  {
    StepKeeps(now, op);
    SinceStep(st, now, op);
    OtherVariablesStay(now, op);
    assert Step(now, op).ended == st.ended by {
      if op.Drop? {
        DetachKeeps(now, Local(op.v), {});
      } else if op.Handshake? {
        RebindKeeps(now, now.slots[Local(op.session)], now.slots[Local(op.socket)]);
      }
    }
    forall x | IsRoot(x) && x !in mine ensures SameAt(st.slots, Step(now, op).slots, x) {
      assert SameAt(st.slots, now.slots, x) && SameAt(now.slots, Step(now, op).slots, x);
    }
  }

  lemma DuringMore(st: State, now: State, mine: set<Slot>, more: set<Slot>)
    requires During(st, now, mine) && mine <= more
    ensures During(st, now, more)
  {
    forall x | IsRoot(x) && x !in more ensures SameAt(st.slots, now.slots, x) {
    }
  }

  lemma DuringTwice(st: State, mid: State, now: State, mine: set<Slot>)
    requires During(st, mid, mine)
    requires exists own :: own <= mine && During(mid, now, own)
    ensures During(st, now, mine)
  {
    var own :| own <= mine && During(mid, now, own);
    forall x | x in now.slots && x.Member? && x.of in Acquired(st.trace) ensures SameAt(st.slots, now.slots, x) {
      assert SameAt(mid.slots, now.slots, x) && SameAt(st.slots, mid.slots, x);
    }
    forall x | IsRoot(x) && x !in mine ensures SameAt(st.slots, now.slots, x) {
      assert SameAt(mid.slots, now.slots, x) && SameAt(st.slots, mid.slots, x);
    }
  }

  lemma DropOne(st: State, now: State, v: nat, mine: set<Slot>)
    requires During(st, now, mine) && Local(v) in now.slots && Local(v) in mine
    ensures During(st, Step(now, Drop(v)), mine) && Local(v) !in Step(now, Drop(v)).slots
    ensures forall n :: n != v ==> SameAt(now.slots, Step(now, Drop(v)).slots, Local(n))
  {
    StepDuring(st, now, Drop(v), mine);
    OtherVariablesStay(now, Drop(v));
  }

  lemma DropThree(st0: State, st: State, s: nat, k: nat, l: nat, mine: set<Slot>)
    requires During(st0, st, mine) && s != k && k != l && l != s
    requires Local(s) in st.slots && Local(k) in st.slots && Local(l) in st.slots
    requires {Local(s), Local(k), Local(l)} <= mine
    ensures CanLeave(st, s, k, l)
    ensures var now := AfterScope(st, s, k, l);
            && During(st0, now, mine) && Local(s) !in now.slots && Local(k) !in now.slots && Local(l) !in now.slots
            && forall n :: n !in {s, k, l} ==> SameAt(st.slots, now.slots, Local(n))
  {
    DropOne(st0, st, s, mine);
    var st1 := Step(st, Drop(s));
    assert SameAt(st.slots, st1.slots, Local(k)) && SameAt(st.slots, st1.slots, Local(l));
    DropOne(st0, st1, k, mine);
    var st2 := Step(st1, Drop(k));
    assert SameAt(st1.slots, st2.slots, Local(s)) && SameAt(st1.slots, st2.slots, Local(l));
    DropOne(st0, st2, l, mine);
    var st3 := Step(st2, Drop(l));
    assert SameAt(st2.slots, st3.slots, Local(s)) && SameAt(st2.slots, st3.slots, Local(k));
    forall n | n !in {s, k, l} ensures SameAt(st.slots, st3.slots, Local(n)) {
      assert SameAt(st.slots, st1.slots, Local(n)) && SameAt(st1.slots, st2.slots, Local(n));
      assert SameAt(st2.slots, st3.slots, Local(n));
    }
  }

  /** The locals are the variables of the constructor, and hold what it puts there. */
  ghost predicate Opened(st: State, now: State, s: nat, k: nat, l: nat) {
    && During(st, now, Mine(s, k, l)) && SessionAt(st, now, s)
    && Local(k) in now.slots && Local(l) in now.slots
  }

  /** The locals are gone. */
  ghost predicate Left(st: State, now: State, s: nat, k: nat, l: nat) {
    && During(st, now, Mine(s, k, l))
    && Local(s) !in now.slots && Local(k) !in now.slots && Local(l) !in now.slots
  }

  ghost function Mine(s: nat, k: nat, l: nat): set<Slot> {
    {StaticPtr, Local(s), Local(k), Local(l)}
  }

  lemma CreateRuns(st: State, k: nat, l: nat, r: Replies, mine: set<Slot>)
    requires Good(st) && !st.ended && k != l && Local(k) !in st.slots && Local(l) !in st.slots
    requires {StaticPtr, Local(k), Local(l)} <= mine
    ensures var st1 := Step(st, Op.Create(l, r.init));
            && During(st, st1, mine) && Local(k) !in st1.slots
            && (Local(l) in st1.slots <==> StaticPtr in st.slots || r.init)
            && (Local(l) in st1.slots ==> Holds(st1, l, Lib))
  {
    StepDuring(st, st, Op.Create(l, r.init), mine);
  }

  lemma SocketRuns(st0: State, st: State, k: nat, l: nat, r: Replies, mine: set<Slot>)
    requires During(st0, st, mine) && k != l && Local(k) !in st.slots && Holds(st, l, Lib)
    requires {Local(k), Local(l)} <= mine
    ensures var st1 := Step(st, Op.NewSocket(k, r.opens, r.connects));
            && During(st0, st1, mine) && Holds(st1, l, Lib)
            && (Local(k) in st1.slots <==> r.opens && r.connects)
            && (Local(k) in st1.slots ==> st1.slots[Local(k)].Socket?)
  {
    StepDuring(st0, st, Op.NewSocket(k, r.opens, r.connects), mine);
  }

  lemma ConnectRuns(st: State, k: nat, l: nat, r: Replies, mine: set<Slot>)
    requires Good(st) && !st.ended && k != l && Local(k) !in st.slots && Local(l) !in st.slots
    requires {StaticPtr, Local(k), Local(l)} <= mine
    ensures CanConnect(st, k, l, r)
    ensures var (now, ok) := AfterConnect(st, k, l, r);
            && During(st, now, mine)
            && (ok <==> (StaticPtr in st.slots || r.init) && r.opens && r.connects)
            && if ok then Holds(now, l, Lib) && Local(k) in now.slots && now.slots[Local(k)].Socket?
               else Local(k) !in now.slots && Local(l) !in now.slots
  {
    CreateRuns(st, k, l, r, mine);
    var st1 := Step(st, Op.Create(l, r.init));
    if Local(l) in st1.slots {
      SocketRuns(st, st1, k, l, r, mine);
      var st2 := Step(st1, Op.NewSocket(k, r.opens, r.connects));
      if Local(k) !in st2.slots {
        DropOne(st, st2, l, mine);
        assert SameAt(st2.slots, Step(st2, Drop(l)).slots, Local(k));
      }
    }
  }

  lemma OpenSessionRuns(st: State, s: nat, k: nat, l: nat, r: Replies)
    requires Good(st) && !st.ended && s != k && k != l && l != s
    requires Local(s) !in st.slots && Local(k) !in st.slots && Local(l) !in st.slots
    ensures CanOpen(st, s, k, l, r)
    ensures var (now, ok) := AfterOpen(st, s, k, l, r);
            && (ok <==> Opens(st, r))
            && if ok then Opened(st, now, s, k, l) else Left(st, now, s, k, l)
  {
    ConnectRuns(st, k, l, r, Mine(s, k, l) - {Local(s)});
    var (st1, ok) := AfterConnect(st, k, l, r);
    assert SameAt(st.slots, st1.slots, Local(s));
    DuringMore(st, st1, Mine(s, k, l) - {Local(s)}, Mine(s, k, l));
    if ok {
      SessionRuns(st, st1, s, k, l);
      var made := Step(st1, Op.NewSession(s, l));
      HandshakeRuns(st, made, s, k, l);
      var st2 := Step(made, Op.Handshake(s, k));
      DropThree(st, st2, s, k, l, Mine(s, k, l));
    }
  }

  lemma SessionRuns(st0: State, st: State, s: nat, k: nat, l: nat)
    requires During(st0, st, Mine(s, k, l)) && s != k && k != l && l != s
    requires Local(s) !in st.slots && Holds(st, l, Lib) && Local(k) in st.slots && st.slots[Local(k)].Socket?
    ensures Enabled(st, Op.NewSession(s, l))
    ensures var now := Step(st, Op.NewSession(s, l));
            && During(st0, now, Mine(s, k, l)) && Enabled(now, Op.Handshake(s, k)) && Local(l) in now.slots
            && now.slots[Local(s)] !in Acquired(st0.trace)
  {
    var o := Session(st.next);
    NewMembers(st, o, TheLib);
    assert o !in Acquired(st.trace);
    StepDuring(st0, st, Op.NewSession(s, l), Mine(s, k, l));
  }

  lemma HandshakeRuns(st0: State, st: State, s: nat, k: nat, l: nat)
    requires During(st0, st, Mine(s, k, l)) && Enabled(st, Op.Handshake(s, k)) && Local(l) in st.slots
    requires st.slots[Local(s)] !in Acquired(st0.trace)
    ensures Opened(st0, Step(st, Op.Handshake(s, k)), s, k, l)
  {
    StepDuring(st0, st, Op.Handshake(s, k), Mine(s, k, l));
    OtherVariablesStay(st, Op.Handshake(s, k));
    var now := Step(st, Op.Handshake(s, k));
    assert SameAt(st.slots, now.slots, Local(s)) && SameAt(st.slots, now.slots, Local(k));
    assert SameAt(st.slots, now.slots, Local(l));
    RebindKeeps(st, st.slots[Local(s)], st.slots[Local(k)]);
  }

  /** The channel is made, and the locals go out of scope. */
  lemma ChannelRuns(st0: State, st: State, v: nat, s: nat, k: nat, l: nat, r: Replies)
    requires Opened(st0, st, s, k, l) && s != k && k != l && l != s && v !in {s, k, l} && Local(v) !in st.slots
    ensures CanFinish(st, v, s, k, l, r)
    ensures var now := AfterScope(Step(st, Op.NewChannel(v, s, r.channelOpens)), s, k, l);
            Finished(st0, now, v, s, k, l, r.channelOpens)
  {
    var op := Op.NewChannel(v, s, r.channelOpens);
    var o := st.slots[Local(s)];
    NewMembers(st, Channel(st.next, o.id), TheSession);
    DuringMore(st0, st, Mine(s, k, l), Mine(s, k, l) + {Local(v)});
    StepDuring(st0, st, op, Mine(s, k, l) + {Local(v)});
    ScopeEnds(st0, Step(st, op), v, s, k, l, r.channelOpens);
  }

  /** The locals are gone, and what is new is the channel, if it has been made. */
  ghost predicate Finished(st: State, now: State, v: nat, s: nat, k: nat, l: nat, opens: bool) {
    && During(st, now, Mine(s, k, l) + {Local(v)})
    && Local(s) !in now.slots && Local(k) !in now.slots && Local(l) !in now.slots
    && if opens then ChannelAt(now, v) else Local(v) !in now.slots
  }

  lemma ScopeEnds(st0: State, st: State, v: nat, s: nat, k: nat, l: nat, opens: bool)
    requires During(st0, st, Mine(s, k, l) + {Local(v)}) && s != k && k != l && l != s && v !in {s, k, l}
    requires Local(s) in st.slots && Local(k) in st.slots && Local(l) in st.slots && (opens <==> Local(v) in st.slots)
    requires opens ==> st.slots[Local(v)].Channel? && st.slots[Local(v)].session in Bound(st.trace)
    ensures CanLeave(st, s, k, l) && Finished(st0, AfterScope(st, s, k, l), v, s, k, l, opens)
  {
    DropThree(st, st, s, k, l, Mine(s, k, l));
    var now := AfterScope(st, s, k, l);
    DuringTwice(st0, st, now, Mine(s, k, l) + {Local(v)});
    assert SameAt(st.slots, now.slots, Local(v));
    if opens {
      ChannelStays(st, now, v);
    }
  }

  lemma ChannelStays(st: State, now: State, v: nat)
    requires Good(st) && Good(now) && Since(st, now) && SameAt(st.slots, now.slots, Local(v))
    requires Local(v) in st.slots && st.slots[Local(v)].Channel? && st.slots[Local(v)].session in Bound(st.trace)
    ensures ChannelAt(now, v)
  {
    ChannelKeepsAll(now, now.slots[Local(v)]);
  }

  /** Without new variables nothing has changed but the library. */
  lemma NothingNew(st: State, now: State, v: nat, s: nat, k: nat, l: nat)
    requires During(st, now, Mine(s, k, l) + {Local(v)}) && forall n :: n in {v, s, k, l} ==>
               Local(n) !in st.slots && Local(n) !in now.slots
    ensures NothingIsNew(st, now)
  {
    forall x | IsRoot(x) && x != StaticPtr ensures SameAt(st.slots, now.slots, x) {
      if x in Mine(s, k, l) + {Local(v)} {
        assert x.name in {v, s, k, l};
      }
    }
    forall o | o != Lib ensures o in Alive(st.trace) <==> o in Alive(now.trace) {
      VariablesDecide(st, now, o);
    }
  }

  lemma ConnectLoses(st: State, k: nat, l: nat, r: Replies)
    requires CanConnect(st, k, l, r)
    ensures Losses(AfterConnect(st, k, l, r).0.trace) == Losses(st.trace) + if LosesSocket(st, r) then 1 else 0
  {
    StepLoses(st, Op.Create(l, r.init));
    var st1 := Step(st, Op.Create(l, r.init));
    if Local(l) in st1.slots {
      var op := Op.NewSocket(k, r.opens, r.connects);
      StepLoses(st1, op);
      if Local(k) !in Step(st1, op).slots {
        StepLoses(Step(st1, op), Drop(l));
      }
    }
  }

  lemma ScopeLosesNothing(st: State, s: nat, k: nat, l: nat)
    requires CanLeave(st, s, k, l)
    ensures Losses(AfterScope(st, s, k, l).trace) == Losses(st.trace)
  {
    StepLoses(st, Drop(s));
    StepLoses(Step(st, Drop(s)), Drop(k));
    StepLoses(Step(Step(st, Drop(s)), Drop(k)), Drop(l));
  }

  lemma OpenLoses(st: State, s: nat, k: nat, l: nat, r: Replies)
    requires CanOpen(st, s, k, l, r)
    ensures Losses(AfterOpen(st, s, k, l, r).0.trace) == Losses(st.trace) + if LosesSocket(st, r) then 1 else 0
  {
    ConnectLoses(st, k, l, r);
    var (st1, ok) := AfterConnect(st, k, l, r);
    if ok {
      StepLoses(st1, Op.NewSession(s, l));
      var st2 := Step(st1, Op.NewSession(s, l));
      StepLoses(st2, Op.Handshake(s, k));
      ScopeLosesNothing(Step(st2, Op.Handshake(s, k)), s, k, l);
    }
  }

  lemma SshLoses(st: State, v: nat, s: nat, k: nat, l: nat, r: Replies)
    requires CanConstruct(st, v, s, k, l, r)
    ensures Losses(AfterSsh(st, v, s, k, l, r).0.trace) == Losses(st.trace) + if LosesSocket(st, r) then 1 else 0
  {
    OpenLoses(st, s, k, l, r);
    var (now, ok) := AfterOpen(st, s, k, l, r);
    if ok {
      FinishLosesNothing(now, v, s, k, l, r);
    }
  }

  lemma FinishLosesNothing(st: State, v: nat, s: nat, k: nat, l: nat, r: Replies)
    requires CanFinish(st, v, s, k, l, r)
    ensures Losses(AfterChannel(st, v, s, k, l, r).0.trace) == Losses(st.trace)
  {
    var op := Op.NewChannel(v, s, r.channelOpens);
    StepLoses(st, op);
    ScopeLosesNothing(Step(st, op), s, k, l);
    if r.channelOpens && !r.shell {
      StepLoses(AfterScope(Step(st, op), s, k, l), Drop(v));
    }
  }

  /** From every state that a program can reach the constructor runs through and does what it promises. */
  lemma SshRuns(st: State, v: nat, s: nat, k: nat, l: nat, r: Replies)
    requires Good(st) && !st.ended && s != k && k != l && l != s && v !in {s, k, l}
    requires Local(v) !in st.slots && Local(s) !in st.slots && Local(k) !in st.slots && Local(l) !in st.slots
    ensures CanConstruct(st, v, s, k, l, r)
    ensures var (now, ok) := AfterSsh(st, v, s, k, l, r); SshResult(st, now, v, r, ok)
  {
    OpenSessionRuns(st, s, k, l, r);
    var (now, ok) := AfterOpen(st, s, k, l, r);
    if ok {
      FinishRuns(st, now, v, s, k, l, r);
    } else {
      OpenFails(st, now, v, s, k, l);
    }
    SshLoses(st, v, s, k, l, r);
  }

  lemma OpenFails(st: State, now: State, v: nat, s: nat, k: nat, l: nat)
    requires Left(st, now, s, k, l) && v !in {s, k, l}
    requires forall n :: n in {v, s, k, l} ==> Local(n) !in st.slots
    ensures Good(now) && NothingIsNew(st, now)
  {
    assert SameAt(st.slots, now.slots, Local(v));
    DuringMore(st, now, Mine(s, k, l), Mine(s, k, l) + {Local(v)});
    NothingNew(st, now, v, s, k, l);
  }

  lemma FinishRuns(st0: State, st: State, v: nat, s: nat, k: nat, l: nat, r: Replies)
    requires Opened(st0, st, s, k, l) && s != k && k != l && l != s && v !in {s, k, l}
    requires forall n :: n in {v, s, k, l} ==> Local(n) !in st0.slots
    ensures CanFinish(st, v, s, k, l, r)
    ensures var (now, ok) := AfterChannel(st, v, s, k, l, r);
            && Good(now) && (ok <==> r.channelOpens && r.shell)
            && if ok then OnlyChannelIsNew(st0, now, v) else NothingIsNew(st0, now)
  {
    assert SameAt(st0.slots, st.slots, Local(v));
    ChannelRuns(st0, st, v, s, k, l, r);
    var now := AfterScope(Step(st, Op.NewChannel(v, s, r.channelOpens)), s, k, l);
    if r.channelOpens && !r.shell {
      ShellFails(st0, now, v, s, k, l);
    } else {
      WhatIsNew(st0, now, v, s, k, l, r.channelOpens);
    }
  }

  /** Without a shell the channel goes as well. */
  lemma ShellFails(st: State, now: State, v: nat, s: nat, k: nat, l: nat)
    requires Finished(st, now, v, s, k, l, true) && v !in {s, k, l}
    requires forall n :: n in {v, s, k, l} ==> Local(n) !in st.slots
    ensures Good(Step(now, Drop(v))) && NothingIsNew(st, Step(now, Drop(v)))
  {
    var r := Step(now, Drop(v));
    DropOne(st, now, v, Mine(s, k, l) + {Local(v)});
    assert forall n :: n in {s, k, l} ==> SameAt(now.slots, r.slots, Local(n));
    NothingNew(st, r, v, s, k, l);
  }

  lemma WhatIsNew(st: State, now: State, v: nat, s: nat, k: nat, l: nat, opens: bool)
    requires Finished(st, now, v, s, k, l, opens)
    requires forall n :: n in {v, s, k, l} ==> Local(n) !in st.slots
    ensures Good(now) && if opens then OnlyChannelIsNew(st, now, v) else NothingIsNew(st, now)
  {
    if opens {
      forall x | IsRoot(x) && x != StaticPtr && x != Local(v) ensures SameAt(st.slots, now.slots, x) {
        if x in Mine(s, k, l) {
          assert x.name in {s, k, l};
        }
      }
    } else {
      NothingNew(st, now, v, s, k, l);
    }
  }

  lemma AddPointerOver(slots: map<Slot, Obj>, counts: map<Obj, nat>, x: Slot, k: Obj, o: Obj)
    requires OverCounted(slots, counts, o) && x !in slots
    ensures OverCounted(slots[x := k], counts[k := if k in counts then counts[k] + 1 else 1], o)
  {
    var s, c := slots[x := k], counts[k := if k in counts then counts[k] + 1 else 1];
    OwnersAdded(slots, x, k, o);
    forall p | p != o ensures (p in c <==> Owned(s, p)) && (p in c ==> c[p] == |Owners(s, p)|) {
      OwnersAdded(slots, x, k, p);
      OwnedIsCounted(slots, p);
    }
  }

  lemma Repointed(slots: map<Slot, Obj>, counts: map<Obj, nat>, x: Slot, k: Obj)
    requires Counted(slots, counts) && x in slots
    ensures OverCounted(slots[x := k], counts[k := if k in counts then counts[k] + 1 else 1], slots[x])
  {
    RemovePointer(slots, counts, x);
    AddPointerOver(slots - {x}, counts, x, k, slots[x]);
    assert (slots - {x})[x := k] == slots[x := k];
  }

  /** The program: its pointers, and the use counts of the objects they point to. */
  class Process {
    var slots: map<Slot, Obj>
    var counts: map<Obj, nat>
    var next: nat
    var ended: bool
    ghost var trace: Trace

    constructor ()
      ensures Valid() && Now() == EMPTY
    {
      slots, counts, next, ended, trace := map[], map[], 0, false, Start;
    }

    ghost predicate Valid()
      reads this
    {
      Counted(slots, counts)
    }

    ghost function Now(): State
      reads this
    {
      State(slots, trace, next, ended)
    }

    /** A shared pointer is copied into a new place. */
    method Point(x: Slot, o: Obj)
      requires Valid() && x !in slots
      modifies this
      ensures Valid() && Now() == Attach(old(Now()), x, o)
    {
      AddPointer(slots, counts, x, o);
      counts := counts[o := if o in counts then counts[o] + 1 else 1];
      slots := slots[x := o];
    }

    /** A shared pointer is destroyed. */
    method Unpoint(x: Slot)
      requires Valid() && x in slots
      modifies this
      ensures Valid() && Now() == Detach(old(Now()), x)
      decreases Rank(slots[x]), 3
    {
      RemovePointer(slots, counts, x);
      var o := slots[x];
      slots := slots - {x};
      Discount(o);
    }

    /** One pointer less: at zero the object is destroyed. */
    method Discount(o: Obj)
      requires OverCounted(slots, counts, o)
      modifies this
      ensures Valid()
      ensures Now() == if Owned(old(slots), o) then old(Now()) else Destroy(old(Now()), o)
      decreases Rank(o), 2
    {
      OwnedIsCounted(slots, o);
      if counts[o] == 1 {
        counts := counts - {o};
        DestroyObject(o);
      } else {
        counts := counts[o := counts[o] - 1];
      }
    }

    /** The destructors. `~Channel`, `~Listener`, `~Session`, `~Socket` and `~Libssh2` release the
        handle; then the members go: the session of a channel or a listener, and the socket and the
        library of a session, in this order. */
    method DestroyObject(o: Obj)
      requires Valid()
      modifies this
      ensures Valid() && Now() == Destroy(old(Now()), o)
      decreases Rank(o), 1
    {
      trace := Then(trace, Release(o));
      UnpointMember(o, TheSession);
      UnpointMember(o, TheSocket);
      UnpointMember(o, TheLib);
    }

    method UnpointMember(o: Obj, f: Field)
      requires Valid()
      modifies this
      ensures Valid() && Now() == DetachMember(old(Now()), o, f)
      decreases Rank(o), 0
    {
      var x := Member(o, f);
      if x in slots && Rank(slots[x]) < Rank(o) {
        Unpoint(x);
      }
    }

    /** The assignment to the socket pointer of a session. */
    method Repoint(s: Obj, k: Obj)
      requires Valid()
      modifies this
      ensures Valid() && Now() == Rebind(old(Now()), s, k)
    {
      var x := Member(s, TheSocket);
      if x in slots {
        var oldSocket := slots[x];
        ghost var slots0 := slots;
        RemovePointer(slots, counts, x);
        counts := counts[k := if k in counts then counts[k] + 1 else 1];
        slots := slots[x := k];
        Repointed(slots0, old(counts), x, k);
        Discount(oldSocket);
      } else {
        Point(x, k);
      }
    }

    /** `Libssh2::create`: the first call initialises the library. A failure is an exception, here and
        below; the result says whether there was none. */
    method Create(v: nat, initOk: bool) returns (ok: bool)
      requires Valid() && Enabled(Now(), Op.Create(v, initOk))
      modifies this
      ensures Valid() && Now() == Step(old(Now()), Op.Create(v, initOk))
      ensures ok <==> StaticPtr in old(slots) || initOk
      ensures ok ==> StaticPtr in slots && Holds(Now(), v, slots[StaticPtr])
      ensures !ok ==> Now() == old(Now())
    {
      if StaticPtr !in slots {
        if !initOk {
          return false;
        }
        trace := Then(trace, Acquire(Lib));
        Point(StaticPtr, Lib);
      }
      Point(Local(v), slots[StaticPtr]);
      return true;
    }

    /** `Socket::create`. When the connect fails, the destructor of the half-made socket does not run. */
    method NewSocket(v: nat, opens: bool, connects: bool) returns (ok: bool)
      requires Valid() && Enabled(Now(), Op.NewSocket(v, opens, connects))
      modifies this
      ensures Valid() && Now() == Step(old(Now()), Op.NewSocket(v, opens, connects))
      ensures ok <==> opens && connects
      ensures slots == if ok then old(slots)[Local(v) := Socket(old(next))] else old(slots)
    {
      if !opens {
        return false;
      }
      var k := Socket(next);
      trace := Then(trace, Acquire(k));
      next := next + 1;
      if !connects {
        trace := Then(trace, Lose(k.id));
        return false;
      }
      Point(Local(v), k);
      return true;
    }

    /** A new object with its one member. */
    method NewObject(v: nat, o: Obj, f: Field, from: Obj)
      requires Valid() && Local(v) !in slots && Member(o, f) !in slots
      modifies this
      ensures Valid() && Now() == Make(old(Now()), v, o, f, from)
    {
      trace := Then(trace, Acquire(o));
      Point(Member(o, f), from);
      Point(Local(v), o);
      next := next + 1;
    }

    /** `Libssh2::new_session`. */
    method NewSession(v: nat, l: nat)
      requires Valid() && Enabled(Now(), Op.NewSession(v, l))
      modifies this
      ensures Valid() && Now() == Step(old(Now()), Op.NewSession(v, l))
      ensures IsMade(old(Now()), Now(), v, Session(old(next)), TheLib, Lib)
    {
      NewObject(v, Session(next), TheLib, Lib);
    }

    /** `Session::handshake`: the socket is taken, and then libssh2 is called. It is kept whether the
        handshake succeeds or not. */
    method Handshake(s: nat, k: nat)
      requires Valid() && Enabled(Now(), Op.Handshake(s, k))
      modifies this
      ensures Valid() && Now() == Step(old(Now()), Op.Handshake(s, k))
    {
      var session, socket := slots[Local(s)], slots[Local(k)];
      trace := Then(trace, Bind(session.id, socket.id));
      Repoint(session, socket);
      trace := Then(trace, Shake(session.id, socket.id));
    }

    /** `Session::new_channel` and `Session::new_channel_tcpip`. */
    method NewChannel(v: nat, s: nat, opens: bool) returns (ok: bool)
      requires Valid() && Enabled(Now(), Op.NewChannel(v, s, opens))
      modifies this
      ensures Valid() && Now() == Step(old(Now()), Op.NewChannel(v, s, opens))
      ensures ok <==> opens
      ensures var session := old(slots[Local(s)]);
              if ok then IsMade(old(Now()), Now(), v, Channel(old(next), session.id), TheSession, session)
              else Now() == old(Now())
    {
      if opens {
        NewObject(v, Channel(next, slots[Local(s)].id), TheSession, slots[Local(s)]);
      }
      return opens;
    }

    /** `Session::new_listener`. */
    method NewListener(v: nat, s: nat, listens: bool) returns (ok: bool)
      requires Valid() && Enabled(Now(), Op.NewListener(v, s, listens))
      modifies this
      ensures Valid() && Now() == Step(old(Now()), Op.NewListener(v, s, listens))
      ensures ok <==> listens
      ensures var session := old(slots[Local(s)]);
              if ok then IsMade(old(Now()), Now(), v, Listener(old(next), session.id), TheSession, session)
              else Now() == old(Now())
    {
      if listens {
        NewObject(v, Listener(next, slots[Local(s)].id), TheSession, slots[Local(s)]);
      }
      return listens;
    }

    method CopyVariable(v: nat, x: nat)
      requires Valid() && Enabled(Now(), Copy(v, x))
      modifies this
      ensures Valid() && Now() == Step(old(Now()), Copy(v, x))
      ensures Holds(Now(), v, old(slots[Local(x)]))
    {
      Point(Local(v), slots[Local(x)]);
    }

    method DropVariable(v: nat)
      requires Valid() && Enabled(Now(), Drop(v))
      modifies this
      ensures Valid() && Now() == Step(old(Now()), Drop(v))
    {
      Unpoint(Local(v));
    }

    /** The end of the program, where static objects are destroyed. */
    method EndProgram()
      requires Valid() && Enabled(Now(), End)
      modifies this
      ensures Valid() && Now() == Step(old(Now()), End)
    {
      if StaticPtr in slots {
        Unpoint(StaticPtr);
      }
      ended := true;
    }

    /** The local pointers of a function go out of scope, the last declared first. */
    method LeaveScope(s: nat, k: nat, l: nat)
      requires Valid() && CanLeave(Now(), s, k, l)
      modifies this
      ensures Valid() && Now() == AfterScope(old(Now()), s, k, l)
    {
      DropVariable(s);
      DropVariable(k);
      DropVariable(l);
    }

    /** The constructor of `SSH` up to the socket. */
    method Connect(k: nat, l: nat, r: Replies) returns (ok: bool)
      requires Valid() && CanConnect(Now(), k, l, r)
      modifies this
      ensures Valid() && (Now(), ok) == AfterConnect(old(Now()), k, l, r)
    {
      ok := Create(l, r.init);
      if ok {
        ok := NewSocket(k, r.opens, r.connects);
        if !ok {
          DropVariable(l);
        }
      }
    }

    /** The constructor of `SSH` up to the channel: connect, handshake, method check, authentication. */
    method OpenSession(s: nat, k: nat, l: nat, r: Replies) returns (ok: bool)
      requires Valid() && CanOpen(Now(), s, k, l, r)
      modifies this
      ensures Valid() && (Now(), ok) == AfterOpen(old(Now()), s, k, l, r)
    {
      ok := Connect(k, l, r);
      if ok {
        NewSession(s, l);
        Handshake(s, k);
        ok := r.handshake && r.offersPassword && r.authenticates;
        if !ok {
          LeaveScope(s, k, l);
        }
      }
    }

    /** The constructor of `SSH`. On success `v`, the member `channel`, holds a new channel. */
    method Construct(v: nat, s: nat, k: nat, l: nat, r: Replies) returns (ok: bool)
      requires Valid() && CanConstruct(Now(), v, s, k, l, r)
      modifies this
      ensures Valid() && (Now(), ok) == AfterSsh(old(Now()), v, s, k, l, r)
    {
      ok := OpenSession(s, k, l, r);
      if ok {
        ok := NewChannel(v, s, r.channelOpens);
        LeaveScope(s, k, l);
        if ok && !r.shell {
          DropVariable(v);
          ok := false;
        }
      }
    }

    /** The constructor of `SSH`, called with new names in any state that a program can reach. */
    method SshConstructor(v: nat, s: nat, k: nat, l: nat, r: Replies) returns (ok: bool)
      requires Valid() && Good(Now()) && !ended && s != k && k != l && l != s && v !in {s, k, l}
      requires Local(v) !in slots && Local(s) !in slots && Local(k) !in slots && Local(l) !in slots
      modifies this
      ensures Valid() && SshResult(old(Now()), Now(), v, r, ok)
    {
      SshRuns(Now(), v, s, k, l, r);
      ok := Construct(v, s, k, l, r);
    }
  }
}
