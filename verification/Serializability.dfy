/** Every interleaving of launch calls is equivalent to a serial order of them, and that
    order respects real time. */
module Serializability {
  import opened LaunchRegistry
  import opened Outcomes
  import opened LaunchMachine

  // ---------- what every reachable state satisfies ----------

  /** The locks a call holds, read off its program counter. */
  predicate Owns(a: Activity, st: Stage) {
    || (st == Home(a.call) && !a.pc.Ready? && !a.pc.Issued? && !a.pc.Returned?)
    || (st == Dest(a.call) && (a.pc.Nested? || a.pc.Unnesting?))
  }

  /** The program counter fits the call, and agrees with the tables it has locked. */
  predicate Fits(s: State, a: Activity) {
    var c := a.call;
    && (a.pc.Issued? ==> c.SevInit? && c.initIo.Ok?)
    && (a.pc.Holding? && c.SevInit? ==> c.initIo.Ok?)
    && (a.pc.Borrowed? ==> ShapeOf(c).Use? && c.fd in s.maps.Get(Home(c)))
    && (a.pc.Carrying() ==> ShapeOf(c).Move? && c.fd !in s.maps.Get(Home(c)))
    && (a.pc.Advanced? || a.pc.Nested? ==> MoveError(c).None? && a.pc.to == Advance(a.pc.from, c))
    && (a.pc.Unnesting? ==> ShapeOf(c).Move?)
  }

  /** Every held lock is held by a call that should have it. */
  ghost predicate LocksOwned(s: State) {
    forall st :: st in s.held ==> s.held[st] in s.acts && Owns(s.acts[s.held[st]], st)
  }

  /** Every call has the locks it should have. */
  ghost predicate OwnersLock(s: State) {
    forall t, st :: t in s.acts && Owns(s.acts[t], st) ==> st in s.held && s.held[st] == t
  }

  ghost predicate AllFit(s: State) {
    forall t :: t in s.acts ==> Fits(s, s.acts[t])
  }

  ghost predicate Inv(s: State) {
    LocksOwned(s) && OwnersLock(s) && AllFit(s)
  }

  lemma InvInvoke(s: State, t: Tid, c: Call)
    requires Inv(s) && Enabled(s, Invoke(t, c))
    ensures Inv(Next(s, Invoke(t, c)))
  {
    var s' := Next(s, Invoke(t, c));
    assert forall u :: u in s'.acts && u != t ==> u in s.acts && s'.acts[u] == s.acts[u];
    assert LocksOwned(s') && OwnersLock(s') && AllFit(s');
  }

  /** The lock a step gives back, if any. */
  function Drops(a: Activity): Option<Stage> {
    if a.pc.Unnesting? then Some(Dest(a.call)) else if a.pc.Leaving? then Some(Home(a.call)) else None
  }

  lemma OwnsNext(s: State, a: Activity, st: Stage)
    requires Fits(s, a) && !a.pc.Returned?
    ensures Owns(Activity(a.call, NextPc(s.maps, a)), st) <==>
            Wants(a) == Some(st) || (Owns(a, st) && Drops(a) != Some(st))
  {
  }

  lemma DropsOwned(s: State, a: Activity)
    requires Fits(s, a) && Drops(a).Some?
    ensures Owns(a, Drops(a).value)
  {
  }

  /** What the invariant says about one call and one table. */
  predicate Agrees(s: State, t: Tid, st: Stage)
    requires t in s.acts
  {
    Owns(s.acts[t], st) <==> st in s.held && s.held[st] == t
  }

  lemma InvAt(s: State, t: Tid, st: Stage)
    requires Inv(s) && t in s.acts
    ensures Fits(s, s.acts[t]) && Agrees(s, t, st)
  {
  }

  /** The lock table after a step, lock by lock. */
  lemma HeldNext(held: map<Stage, Tid>, t: Tid, a: Activity, st: Stage)
    requires Wants(a).Some? ==> Drops(a).None?
    ensures var held' := NextHeld(held, t, a);
            if Wants(a) == Some(st) then st in held' && held'[st] == t
            else if Drops(a) == Some(st) then st !in held'
            else (st in held' <==> st in held) && (st in held ==> held'[st] == held[st])
  {
  }

  /** A step changes only the ownership of its own locks, and its program counter
      tells which it then has. */
  lemma StepLocks(s: State, t: Tid, st: Stage)
    requires Enabled(s, Step(t)) && Fits(s, s.acts[t]) && Agrees(s, t, st)
    ensures var s' := Next(s, Step(t));
            && Agrees(s', t, st)
            && (st in s.held && s.held[st] != t ==> st in s'.held && s'.held[st] == s.held[st])
            && (st in s'.held && s'.held[st] != t ==> st in s.held && s.held[st] == s'.held[st])
  {
    var a := s.acts[t];
    OwnsNext(s, a, st);
    if Drops(a).Some? { DropsOwned(s, a); }
    HeldNext(s.held, t, a, st);
  }

  lemma StepFrame(s: State, t: Tid, st: Stage)
    requires Enabled(s, Step(t)) && Fits(s, s.acts[t]) && !Owns(s.acts[t], st)
    ensures Next(s, Step(t)).maps.Get(st) == s.maps.Get(st)
  {
  }

  lemma StepFits(s: State, t: Tid, u: Tid)
    requires Inv(s) && Enabled(s, Step(t)) && u in s.acts
    ensures Fits(Next(s, Step(t)), Next(s, Step(t)).acts[u])
  {
    assert Fits(s, s.acts[t]) && Fits(s, s.acts[u]);
    if u != t {
      var home := Home(s.acts[u].call);
      if Owns(s.acts[u], home) {
        assert s.held[home] == u;
        StepFrame(s, t, home);
      }
    }
  }

  lemma LocksOwnedStep(s: State, t: Tid)
    requires Inv(s) && Enabled(s, Step(t))
    ensures LocksOwned(Next(s, Step(t)))
  {
    var s' := Next(s, Step(t));
    forall st | st in s'.held ensures s'.held[st] in s'.acts && Owns(s'.acts[s'.held[st]], st) {
      InvAt(s, t, st);
      StepLocks(s, t, st);
    }
  }

  lemma OwnerLocks(s: State, t: Tid, u: Tid, st: Stage)
    requires Inv(s) && Enabled(s, Step(t)) && u in s.acts
    ensures Agrees(Next(s, Step(t)), u, st)
  {
    InvAt(s, t, st);
    InvAt(s, u, st);
    StepLocks(s, t, st);
  }

  lemma OwnersLockFrom(s: State, s': State)
    requires s'.acts.Keys == s.acts.Keys
    requires forall u, st :: u in s'.acts ==> Agrees(s', u, st)
    ensures OwnersLock(s')
  {
    forall u, st | u in s'.acts && Owns(s'.acts[u], st) ensures st in s'.held && s'.held[st] == u {
      assert u in s.acts.Keys && Agrees(s', u, st);
    }
  }

  lemma OwnersLockStep(s: State, t: Tid)
    requires Inv(s) && Enabled(s, Step(t))
    ensures OwnersLock(Next(s, Step(t)))
  {
    var s' := Next(s, Step(t));
    assert s'.acts.Keys == s.acts.Keys;
    forall u, st | u in s'.acts ensures Agrees(s', u, st) {
      OwnerLocks(s, t, u, st);
    }
    OwnersLockFrom(s, s');
  }

  lemma AllFitStep(s: State, t: Tid)
    requires Inv(s) && Enabled(s, Step(t))
    ensures AllFit(Next(s, Step(t)))
  {
    var s' := Next(s, Step(t));
    forall u | u in s'.acts ensures Fits(s', s'.acts[u]) {
      StepFits(s, t, u);
    }
  }

  lemma InvStep(s: State, t: Tid)
    requires Inv(s) && Enabled(s, Step(t))
    ensures Inv(Next(s, Step(t)))
  {
    LocksOwnedStep(s, t);
    OwnersLockStep(s, t);
    AllFitStep(s, t);
  }

  lemma InvAlways(m: Maps, run: seq<Label>)
    requires IsRun(Initial(m), run)
    ensures Inv(After(Initial(m), run))
    decreases |run|
  {
    if run != [] {
      var before, l := run[..|run|-1], run[|run|-1];
      InvAlways(m, before);
      match l
      case Invoke(t, c) => InvInvoke(After(Initial(m), before), t, c);
      case Step(t) => InvStep(After(Initial(m), before), t);
    }
  }

  // ---------- the serial state a concurrent state stands for ----------

  /** A table as a call that may have taken its launcher out still accounts for it. */
  function Restored(m: Maps, a: Activity, st: Stage): map<Fd, Launcher> {
    if a.pc.Carrying() && Home(a.call) == st then m.Get(st)[a.call.fd := a.pc.from] else m.Get(st)
  }

  function AbsAt(s: State, st: Stage): map<Fd, Launcher> {
    if st in s.held && s.held[st] in s.acts then Restored(s.maps, s.acts[s.held[st]], st) else s.maps.Get(st)
  }

  /** The tables with every launcher in flight put back: the state between serial calls. */
  function Abs(s: State): Maps {
    Maps(AbsAt(s, InitMap), AbsAt(s, StartedMap), AbsAt(s, MeasuredMap), AbsAt(s, FinishedMap))
  }

  lemma AbsOwned(s: State, t: Tid, st: Stage)
    requires t in s.acts && Agrees(s, t, st) && Owns(s.acts[t], st)
    ensures AbsAt(s, st) == Restored(s.maps, s.acts[t], st)
  {
  }

  lemma RestoredUnowned(m: Maps, a: Activity, st: Stage)
    requires !Owns(a, st)
    ensures Restored(m, a, st) == m.Get(st)
  {
  }

  /** A table that becomes owned was owned by no one. */
  lemma AbsGained(s: State, t: Tid, st: Stage)
    requires Enabled(s, Step(t)) && Fits(s, s.acts[t]) && !Owns(s.acts[t], st)
    requires Owns(Next(s, Step(t)).acts[t], st)
    ensures AbsAt(s, st) == Restored(s.maps, s.acts[t], st)
  {
    OwnsNext(s, s.acts[t], st);
    RestoredUnowned(s.maps, s.acts[t], st);
  }

  /** A table that the step does not own looks the same. */
  lemma AbsFrame(s: State, t: Tid, st: Stage)
    requires Inv(s) && Enabled(s, Step(t)) && !Owns(s.acts[t], st) && !Owns(Next(s, Step(t)).acts[t], st)
    ensures AbsAt(Next(s, Step(t)), st) == AbsAt(s, st)
  {
    InvAt(s, t, st);
    StepLocks(s, t, st);
    StepFrame(s, t, st);
  }

  /** Tables a step owns before or after are seen through its own program counter;
      all others look the same as before. */
  lemma AbsAfterStep(s: State, t: Tid, st: Stage)
    requires Inv(s) && Enabled(s, Step(t))
    ensures var s' := Next(s, Step(t));
            var a, a' := s.acts[t], s'.acts[t];
            if Owns(a, st) || Owns(a', st) then
              AbsAt(s, st) == Restored(s.maps, a, st) && AbsAt(s', st) == Restored(s'.maps, a', st)
            else AbsAt(s', st) == AbsAt(s, st)
  {
    var s' := Next(s, Step(t));
    InvAt(s, t, st);
    if !Owns(s.acts[t], st) && !Owns(s'.acts[t], st) {
      AbsFrame(s, t, st);
    } else {
      StepLocks(s, t, st);
      if Owns(s.acts[t], st) { AbsOwned(s, t, st); } else { AbsGained(s, t, st); }
      if Owns(s'.acts[t], st) {
        AbsOwned(s', t, st);
      } else {
        AbsDropped(s, t, st);
      }
    }
  }

  /** A table just given up is owned by no one. */
  lemma AbsDropped(s: State, t: Tid, st: Stage)
    requires Enabled(s, Step(t)) && Fits(s, s.acts[t]) && Owns(s.acts[t], st)
    requires !Owns(Next(s, Step(t)).acts[t], st)
    ensures var s' := Next(s, Step(t)); AbsAt(s', st) == Restored(s'.maps, s'.acts[t], st)
  {
    var a := s.acts[t];
    OwnsNext(s, a, st);
    HeldNext(s.held, t, a, st);
    RestoredUnowned(Next(s, Step(t)).maps, Next(s, Step(t)).acts[t], st);
  }

  /** The step at which a call's return value becomes fixed. */
  predicate Decides(s: State, t: Tid)
    requires t in s.acts
  {
    !s.acts[t].pc.Decided() && NextPc(s.maps, s.acts[t]).Decided()
  }

  lemma PutBack<V>(m: map<Fd, V>, fd: Fd)
    requires fd in m
    ensures (m - {fd})[fd := m[fd]] == m
  {
  }

  /** Taking a launcher out of the home table keeps it accounted for. */
  lemma QuietTake(s: State, t: Tid, st: Stage)
    requires t in s.acts && Fits(s, s.acts[t]) && Enabled(s, Step(t)) && !Decides(s, t) && s.acts[t].pc.Holding?
    ensures Restored(Next(s, Step(t)).maps, Next(s, Step(t)).acts[t], st) == Restored(s.maps, s.acts[t], st)
  {
    var c := s.acts[t].call;
    if ShapeOf(c).Move? && st == Home(c) {
      PutBack(s.maps.Get(st), c.fd);
    }
  }

  /** Every other step that fixes no result touches no table. */
  lemma QuietOther(s: State, t: Tid, st: Stage)
    requires t in s.acts && Fits(s, s.acts[t]) && Enabled(s, Step(t)) && !Decides(s, t) && !s.acts[t].pc.Holding?
    ensures Restored(Next(s, Step(t)).maps, Next(s, Step(t)).acts[t], st) == Restored(s.maps, s.acts[t], st)
  {
  }

  lemma QuietAt(s: State, t: Tid, st: Stage)
    requires Inv(s) && Enabled(s, Step(t)) && !Decides(s, t)
    ensures AbsAt(Next(s, Step(t)), st) == AbsAt(s, st)
  {
    AbsAfterStep(s, t, st);
    assert Fits(s, s.acts[t]);
    if s.acts[t].pc.Holding? { QuietTake(s, t, st); } else { QuietOther(s, t, st); }
  }

  /** A step that fixes no result leaves the serial view alone. */
  lemma QuietStep(s: State, t: Tid)
    requires Inv(s) && Enabled(s, Step(t)) && !Decides(s, t)
    ensures Abs(Next(s, Step(t))) == Abs(s)
  {
    QuietAt(s, t, InitMap);
    QuietAt(s, t, StartedMap);
    QuietAt(s, t, MeasuredMap);
    QuietAt(s, t, FinishedMap);
  }

  /** The serial meaning of a moving call, table by table. */
  function MoveEffect(m: Maps, c: Call): (Maps, Ret)
    requires c.fd in m.Get(Home(c))
  {
    var from := m.Get(Home(c))[c.fd];
    var m1 := m.Put(Home(c), m.Get(Home(c)) - {c.fd});
    if MoveError(c).Some? then (m1, FwFailed(MoveError(c).value))
    else (m1.Put(Dest(c), m1.Get(Dest(c))[c.fd := Advance(from, c)]), MoveRet(c, c.fd in m1.Get(Dest(c))))
  }

  lemma SerialMove(m: Maps, c: Call)
    requires ShapeOf(c).Move? && c.fd in m.Get(Home(c))
    ensures Serial(m, c) == MoveEffect(m, c)
  {
  }

  lemma SerialAbsent(m: Maps, c: Call)
    requires !c.SevInit? && c.fd !in m.Get(Home(c))
    ensures Serial(m, c) == (m, REFUSED)
  {
  }

  lemma SerialUse(m: Maps, c: Call)
    requires ShapeOf(c).Use? && c.fd in m.Get(Home(c))
    ensures Serial(m, c) == (m, UseRet(c))
  {
  }

  lemma MapsEqual(m: Maps, m': Maps)
    requires forall st :: m.Get(st) == m'.Get(st)
    ensures m == m'
  {
    assert m.Get(InitMap) == m'.Get(InitMap) && m.Get(StartedMap) == m'.Get(StartedMap);
    assert m.Get(MeasuredMap) == m'.Get(MeasuredMap) && m.Get(FinishedMap) == m'.Get(FinishedMap);
  }

  lemma AbsGet(s: State, st: Stage)
    ensures Abs(s).Get(st) == AbsAt(s, st)
  {
  }

  lemma AbsCarried(s: State, t: Tid)
    requires Inv(s) && t in s.acts && s.acts[t].pc.Carrying()
    ensures var a := s.acts[t];
            var m := s.maps.Get(Home(a.call));
            && a.call.fd !in m
            && Abs(s).Get(Home(a.call)) == m[a.call.fd := a.pc.from]
            && Abs(s).Get(Home(a.call)) - {a.call.fd} == m
  {
    assert Fits(s, s.acts[t]);
    AbsOwned(s, t, Home(s.acts[t].call));
    AbsGet(s, Home(s.acts[t].call));
  }

  lemma PutGet(m: Maps, st: Stage, x: map<Fd, Launcher>, other: Stage)
    ensures m.Put(st, x).Get(other) == if other == st then x else m.Get(other)
  {
  }

  /** A moving call whose ioctl failed has lost its launcher. */
  lemma MoveFails(s: State, t: Tid, st: Stage)
    requires Inv(s) && Enabled(s, Step(t)) && Decides(s, t) && s.acts[t].pc.Taken?
    ensures var home := Home(s.acts[t].call);
            AbsAt(Next(s, Step(t)), st) == if st == home then s.maps.Get(home) else Abs(s).Get(st)
  {
    assert Fits(s, s.acts[t]);
    AbsAfterStep(s, t, st);
    AbsGet(s, st);
  }

  /** A moving call that inserts has its launcher in the destination table only. */
  lemma MoveLands(s: State, t: Tid, st: Stage)
    requires Inv(s) && Enabled(s, Step(t)) && s.acts[t].pc.Nested?
    ensures var c := s.acts[t].call;
            && Abs(s).Get(Dest(c)) == s.maps.Get(Dest(c))
            && AbsAt(Next(s, Step(t)), st) ==
               if st == Home(c) then s.maps.Get(st)
               else if st == Dest(c) then s.maps.Get(st)[c.fd := s.acts[t].pc.to] else Abs(s).Get(st)
  {
    var c := s.acts[t].call;
    assert Fits(s, s.acts[t]);
    AbsOwned(s, t, Dest(c));
    AbsGet(s, Dest(c));
    AbsAfterStep(s, t, st);
    AbsGet(s, st);
    PutGet(s.maps, Dest(c), s.maps.Get(Dest(c))[c.fd := s.acts[t].pc.to], st);
  }

  /** At its deciding step a moving call has, in the serial view, exactly its serial effect. */
  lemma DecisiveMove(s: State, t: Tid, st: Stage)
    requires Inv(s) && Enabled(s, Step(t)) && Decides(s, t) && s.acts[t].pc.Carrying()
    ensures var s' := Next(s, Step(t));
            && s.acts[t].call.fd in Abs(s).Get(Home(s.acts[t].call))
            && AbsAt(s', st) == MoveEffect(Abs(s), s.acts[t].call).0.Get(st)
            && s'.acts[t].pc.ret == MoveEffect(Abs(s), s.acts[t].call).1
  {
    var a := s.acts[t];
    var c := a.call;
    assert Fits(s, a);
    AbsCarried(s, t);
    var m, home := Abs(s), Home(c);
    var m1 := m.Put(home, m.Get(home) - {c.fd});
    PutGet(m, home, m.Get(home) - {c.fd}, st);
    if a.pc.Taken? {
      MoveFails(s, t, st);
    } else {
      MoveLands(s, t, st);
      PutGet(m, home, m.Get(home) - {c.fd}, Dest(c));
      PutGet(m1, Dest(c), m1.Get(Dest(c))[c.fd := a.pc.to], st);
    }
  }

  lemma DecisiveInit(s: State, t: Tid, st: Stage)
    requires Inv(s) && Enabled(s, Step(t)) && Decides(s, t) && s.acts[t].call.SevInit?
    ensures var s' := Next(s, Step(t));
            && AbsAt(s', st) == Serial(Abs(s), s.acts[t].call).0.Get(st)
            && s'.acts[t].pc.ret == Serial(Abs(s), s.acts[t].call).1
  {
    assert Fits(s, s.acts[t]);
    AbsAfterStep(s, t, st);
    AbsGet(s, st);
  }

  /** Calls that find nothing, and calls that only borrow, leave the serial view alone. */
  lemma DecisiveUse(s: State, t: Tid, st: Stage)
    requires Inv(s) && Enabled(s, Step(t)) && Decides(s, t)
    requires !s.acts[t].pc.Carrying() && !s.acts[t].call.SevInit?
    ensures var a, s' := s.acts[t], Next(s, Step(t));
            && AbsAt(s', st) == AbsAt(s, st)
            && s'.acts[t].pc.ret == (if a.pc.Borrowed? then UseRet(a.call) else REFUSED)
            && (if a.pc.Borrowed? then ShapeOf(a.call).Use? && a.call.fd in Abs(s).Get(Home(a.call))
                else a.call.fd !in Abs(s).Get(Home(a.call)))
  {
    var c := s.acts[t].call;
    assert Fits(s, s.acts[t]);
    AbsAfterStep(s, t, st);
    AbsOwned(s, t, Home(c));
    AbsGet(s, Home(c));
    var m := s.maps.Get(Home(c));
    assert c.fd !in m ==> m - {c.fd} == m;
    PutGet(s.maps, Home(c), m - {c.fd}, st);
  }

  lemma DecisiveAt(s: State, t: Tid, st: Stage)
    requires Inv(s) && Enabled(s, Step(t)) && Decides(s, t)
    ensures var s' := Next(s, Step(t));
            && AbsAt(s', st) == Serial(Abs(s), s.acts[t].call).0.Get(st)
            && s'.acts[t].pc.ret == Serial(Abs(s), s.acts[t].call).1
  {
    var a := s.acts[t];
    AbsGet(s, st);
    if a.pc.Carrying() {
      assert Fits(s, a);
      DecisiveMove(s, t, st);
      SerialMove(Abs(s), a.call);
    } else if a.call.SevInit? {
      DecisiveInit(s, t, st);
    } else {
      DecisiveUse(s, t, st);
      if a.pc.Borrowed? { SerialUse(Abs(s), a.call); } else { SerialAbsent(Abs(s), a.call); }
    }
  }

  /** The step that fixes a call's return value has, in the serial view, exactly the
      effect of the whole call run alone. */
  lemma DecisiveStep(s: State, t: Tid)
    requires Inv(s) && Enabled(s, Step(t)) && Decides(s, t)
    ensures var s' := Next(s, Step(t));
            (Abs(s'), s'.acts[t].pc.ret) == Serial(Abs(s), s.acts[t].call)
  {
    var s', c := Next(s, Step(t)), s.acts[t].call;
    forall st ensures Abs(s').Get(st) == Serial(Abs(s), c).0.Get(st) {
      DecisiveAt(s, t, st);
      AbsGet(s', st);
    }
    DecisiveAt(s, t, InitMap);
    MapsEqual(Abs(s'), Serial(Abs(s), c).0);
  }

  // ---------- serializability ----------

  /** Calls run one after another, with their results. */
  function Replay(m: Maps, calls: seq<Call>): (Maps, seq<Ret>)
    decreases |calls|
  {
    if calls == [] then (m, [])
    else
      var before := Replay(m, calls[..|calls|-1]);
      var last := Serial(before.0, calls[|calls|-1]);
      (last.0, before.1 + [last.1])
  }

  /** The call, if any, whose return value a label fixes. */
  function Fixes(s: State, l: Label): seq<Tid>
    requires Enabled(s, l)
  {
    if l.Step? && Decides(s, l.tid) then [l.tid] else []
  }

  /** The order in which the calls of a run had their return values fixed. */
  ghost function Order(s: State, run: seq<Label>): seq<Tid>
    requires IsRun(s, run)
    decreases |run|
  {
    if run == [] then []
    else
      Order(s, run[..|run|-1]) + Fixes(After(s, run[..|run|-1]), run[|run|-1])
  }

  ghost predicate Distinct(order: seq<Tid>) {
    forall i, j :: 0 <= i < j < |order| ==> order[i] != order[j]
  }

  /** `order` lists exactly the calls whose results are fixed, each once. */
  ghost predicate Lists(s: State, order: seq<Tid>) {
    && Distinct(order)
    && (forall t :: t in order <==> t in s.acts && s.acts[t].pc.Decided())
  }

  ghost function CallsOf(s: State, order: seq<Tid>): seq<Call>
    requires Lists(s, order)
  {
    seq(|order|, i requires 0 <= i < |order| => assert order[i] in order; s.acts[order[i]].call)
  }

  ghost function RetsOf(s: State, order: seq<Tid>): seq<Ret>
    requires Lists(s, order)
  {
    seq(|order|, i requires 0 <= i < |order| => assert order[i] in order; s.acts[order[i]].pc.ret)
  }

  /** Replaying the calls of `order` serially gives every fixed result and the serial view. */
  ghost predicate Explains(m: Maps, s: State, order: seq<Tid>) {
    && Lists(s, order)
    && Replay(m, CallsOf(s, order)) == (Abs(s), RetsOf(s, order))
  }

  /** Calls keep their arguments, and fixed results never change. */
  lemma StepKeeps(s: State, l: Label, order: seq<Tid>)
    requires Enabled(s, l) && Lists(s, order) && Lists(Next(s, l), order)
    ensures CallsOf(Next(s, l), order) == CallsOf(s, order) && RetsOf(Next(s, l), order) == RetsOf(s, order)
  {
    forall i | 0 <= i < |order|
      ensures Next(s, l).acts[order[i]].call == s.acts[order[i]].call
      ensures Next(s, l).acts[order[i]].pc.ret == s.acts[order[i]].pc.ret
    {
      assert order[i] in order;
    }
  }

  lemma ExplainInvoke(m: Maps, s: State, order: seq<Tid>, t: Tid, c: Call)
    requires Inv(s) && Explains(m, s, order) && Enabled(s, Invoke(t, c))
    ensures Explains(m, Next(s, Invoke(t, c)), order)
  {
    var s' := Next(s, Invoke(t, c));
    StepKeeps(s, Invoke(t, c), order);
    assert Abs(s') == Abs(s);
  }

  lemma ExplainQuiet(m: Maps, s: State, order: seq<Tid>, t: Tid)
    requires Inv(s) && Explains(m, s, order) && Enabled(s, Step(t)) && !Decides(s, t)
    ensures Explains(m, Next(s, Step(t)), order)
  {
    QuietStep(s, t);
    StepKeeps(s, Step(t), order);
  }

  /** The step that fixes a result lists its call last. */
  lemma ListDecided(s: State, order: seq<Tid>, t: Tid)
    requires Lists(s, order) && Enabled(s, Step(t)) && Decides(s, t)
    ensures var s' := Next(s, Step(t));
            && Lists(s', order + [t])
            && CallsOf(s', order + [t]) == CallsOf(s, order) + [s.acts[t].call]
            && RetsOf(s', order + [t]) == RetsOf(s, order) + [s'.acts[t].pc.ret]
  {
    var s' := Next(s, Step(t));
    assert t !in order;
    forall i | 0 <= i < |order| ensures s'.acts[order[i]] == s.acts[order[i]] {
      assert order[i] in order;
    }
    assert Lists(s', order + [t]);
  }

  lemma ReplaySnoc(m: Maps, calls: seq<Call>, c: Call)
    ensures Replay(m, calls + [c]) ==
            (Serial(Replay(m, calls).0, c).0, Replay(m, calls).1 + [Serial(Replay(m, calls).0, c).1])
  {
    assert (calls + [c])[..|calls|] == calls;
  }

  lemma ExplainDecide(m: Maps, s: State, order: seq<Tid>, t: Tid)
    requires Inv(s) && Explains(m, s, order) && Enabled(s, Step(t)) && Decides(s, t)
    ensures Explains(m, Next(s, Step(t)), order + [t])
  {
    DecisiveStep(s, t);
    ListDecided(s, order, t);
    ReplaySnoc(m, CallsOf(s, order), s.acts[t].call);
  }

  lemma ExplainStep(m: Maps, s: State, order: seq<Tid>, l: Label)
    requires Inv(s) && Explains(m, s, order) && Enabled(s, l)
    ensures Explains(m, Next(s, l), order + Fixes(s, l))
  {
    if l.Invoke? {
      ExplainInvoke(m, s, order, l.tid, l.call);
    } else if Decides(s, l.tid) {
      ExplainDecide(m, s, order, l.tid);
    } else {
      ExplainQuiet(m, s, order, l.tid);
    }
    assert order + [] == order;
  }

  lemma ExplainInitial(m: Maps)
    ensures Explains(m, Initial(m), [])
  {
    assert CallsOf(Initial(m), []) == [] && RetsOf(Initial(m), []) == [];
  }

  /** Linearizability, at every reachable state: the results fixed so far are those of a
      serial execution of exactly those calls. */
  lemma Linearizable(m: Maps, run: seq<Label>)
    requires IsRun(Initial(m), run)
    ensures Explains(m, After(Initial(m), run), Order(Initial(m), run))
    decreases |run|
  {
    var s0 := Initial(m);
    if run == [] {
      ExplainInitial(m);
    } else {
      var before := run[..|run|-1];
      Linearizable(m, before);
      InvAlways(m, before);
      ExplainStep(m, After(s0, before), Order(s0, before), run[|run|-1]);
    }
  }

  ghost predicate AllReturned(s: State) {
    forall t :: t in s.acts ==> s.acts[t].pc.Returned?
  }

  /** Serializability: once every call has returned, the four tables and all results are
      those of running all the calls one after another in some order. */
  lemma Serializable(m: Maps, run: seq<Label>) returns (order: seq<Tid>)
    requires IsRun(Initial(m), run) && AllReturned(After(Initial(m), run))
    ensures var s := After(Initial(m), run);
            && Lists(s, order)
            && (forall t :: t in order <==> t in s.acts)
            && Replay(m, CallsOf(s, order)) == (s.maps, RetsOf(s, order))
    ensures order == Order(Initial(m), run)
  {
    var s := After(Initial(m), run);
    order := Order(Initial(m), run);
    Linearizable(m, run);
    InvAlways(m, run);
    assert forall st :: st !in s.held;
    assert Abs(s) == s.maps;
  }

  lemma OrderGrows(s: State, run: seq<Label>, k: nat)
    requires k <= |run| && IsRun(s, run)
    ensures IsRun(s, run[..k]) && Order(s, run[..k]) <= Order(s, run)
    decreases |run|
  {
    if k < |run| {
      var before := run[..|run|-1];
      OrderGrows(s, before, k);
      assert before[..k] == run[..k];
    } else {
      assert run[..k] == run;
    }
  }

  /** The serial order respects real time: a call that returned before another was made
      comes first. */
  lemma RealTime(m: Maps, run: seq<Label>, k: nat, i: nat, j: nat)
    requires IsRun(Initial(m), run) && k <= |run| && IsRun(Initial(m), run[..k])
    requires i < |Order(Initial(m), run)| && j < |Order(Initial(m), run)|
    requires var s := After(Initial(m), run[..k]);
             var t, u := Order(Initial(m), run)[i], Order(Initial(m), run)[j];
             t in s.acts && s.acts[t].pc.Returned? && u !in s.acts
    ensures i < j
  {
    var s0 := Initial(m);
    var first, all := Order(s0, run[..k]), Order(s0, run);
    OrderGrows(s0, run, k);
    Linearizable(m, run[..k]);
    Linearizable(m, run);
    assert all[i] in first;
    var i' :| 0 <= i' < |first| && first[i'] == all[i];
    assert all[i'] == all[i];
  }
}
