/** What the firmware sees of one VM over a whole concurrent run. */
module Lifecycle {
  import opened LaunchRegistry
  import opened Outcomes
  import opened LaunchMachine
  import opened Serializability
  import opened Progress

  // ---------- the order in which launch commands make sense ----------

  function Repeat(cmd: Cmd, n: nat): seq<Cmd> {
    seq(n, _ => cmd)
  }

  /** A complete launch: INIT START UPDATE^n MEASURE SECRET^k FINISH REPORT^j. */
  function Launch(n: nat, k: nat, j: nat): seq<Cmd> {
    [INIT, START] + Repeat(UPDATE, n) + [MEASURE] + Repeat(SECRET, k) + [FINISH] + Repeat(REPORT, j)
  }

  ghost predicate IsLaunchPrefix(w: seq<Cmd>) {
    exists n: nat, k: nat, j: nat :: w <= Launch(n, k, j)
  }

  /** The same language as an automaton. */
  datatype Phase = Fresh | Created | Running | Sealed | Complete | Broken

  function Accept(p: Phase, cmd: Cmd): Phase {
    match (p, cmd)
    case (Fresh, INIT) => Created
    case (Created, START) => Running
    case (Running, UPDATE) => Running
    case (Running, MEASURE) => Sealed
    case (Sealed, SECRET) => Sealed
    case (Sealed, FINISH) => Complete
    case (Complete, REPORT) => Complete
    case _ => Broken
  }

  function Walk(w: seq<Cmd>): Phase
    decreases |w|
  {
    if w == [] then Fresh else Accept(Walk(w[..|w|-1]), w[|w|-1])
  }

  lemma WalkSnoc(w: seq<Cmd>, cmd: Cmd)
    ensures Walk(w + [cmd]) == Accept(Walk(w), cmd)
  {
    assert (w + [cmd])[..|w + [cmd]|-1] == w;
  }

  /** The words that lead to each live phase. */
  function Canonical(p: Phase, n: nat, k: nat, j: nat): seq<Cmd> {
    match p
    case Fresh => []
    case Created => [INIT]
    case Running => [INIT, START] + Repeat(UPDATE, n)
    case Sealed => [INIT, START] + Repeat(UPDATE, n) + [MEASURE] + Repeat(SECRET, k)
    case _ => Launch(n, k, j)
  }

  lemma CanonicalPrefix(p: Phase, n: nat, k: nat, j: nat)
    ensures Canonical(p, n, k, j) <= Launch(n, k, j)
  {
  }

  lemma RepeatSnoc(cmd: Cmd, n: nat)
    ensures Repeat(cmd, n) + [cmd] == Repeat(cmd, n + 1)
  {
  }

  lemma {:induction false} WalkIsCanonical(w: seq<Cmd>) returns (n: nat, k: nat, j: nat)
    requires Walk(w) != Broken
    ensures w == Canonical(Walk(w), n, k, j)
    decreases |w|
  {
    n, k, j := 0, 0, 0;
    if w != [] {
      var v, cmd := w[..|w|-1], w[|w|-1];
      assert w == v + [cmd];
      n, k, j := WalkIsCanonical(v);
      match Walk(v)
      case Fresh =>
      case Created => n := 0; assert Repeat(UPDATE, 0) == [];
      case Running =>
        if cmd == UPDATE { RepeatSnoc(UPDATE, n); n := n + 1; } else { k := 0; assert Repeat(SECRET, 0) == []; }
      case Sealed =>
        if cmd == SECRET { RepeatSnoc(SECRET, k); k := k + 1; } else { j := 0; assert Repeat(REPORT, 0) == []; }
      case Complete => RepeatSnoc(REPORT, j); j := j + 1;
    }
  }

  lemma {:induction false} WalkRepeat(w: seq<Cmd>, cmd: Cmd, n: nat)
    requires Accept(Walk(w), cmd) == Walk(w)
    ensures Walk(w + Repeat(cmd, n)) == Walk(w)
  {
    if n == 0 {
      assert w + Repeat(cmd, 0) == w;
    } else {
      WalkRepeat(w, cmd, n - 1);
      RepeatSnoc(cmd, n - 1);
      assert w + Repeat(cmd, n) == w + Repeat(cmd, n - 1) + [cmd];
      WalkSnoc(w + Repeat(cmd, n - 1), cmd);
    }
  }

  lemma WalkLaunch(n: nat, k: nat, j: nat)
    ensures Walk(Launch(n, k, j)) == Complete
  {
    WalkSnoc([], INIT);
    assert [] + [INIT] == [INIT];
    WalkSnoc([INIT], START);
    var a: seq<Cmd> := [INIT, START];
    assert [INIT] + [START] == a;
    WalkRepeat(a, UPDATE, n);
    var b := a + Repeat(UPDATE, n);
    WalkSnoc(b, MEASURE);
    WalkRepeat(b + [MEASURE], SECRET, k);
    var c := b + [MEASURE] + Repeat(SECRET, k);
    WalkSnoc(c, FINISH);
    WalkRepeat(c + [FINISH], REPORT, j);
  }

  lemma {:induction false} BrokenForever(w: seq<Cmd>, v: seq<Cmd>)
    requires w <= v && Walk(w) == Broken
    ensures Walk(v) == Broken
    decreases |v|
  {
    if |w| < |v| {
      BrokenForever(w, v[..|v|-1]);
    } else {
      assert w == v;
    }
  }

  /** The automaton accepts exactly the prefixes of complete launches. */
  lemma WalkMeansPrefix(w: seq<Cmd>)
    ensures Walk(w) != Broken <==> IsLaunchPrefix(w)
  {
    if Walk(w) != Broken {
      var n, k, j := WalkIsCanonical(w);
      CanonicalPrefix(Walk(w), n, k, j);
    }
    if IsLaunchPrefix(w) {
      var n: nat, k: nat, j: nat :| w <= Launch(n, k, j);
      WalkLaunch(n, k, j);
      if Walk(w) == Broken {
        BrokenForever(w, Launch(n, k, j));
      }
    }
  }

  // ---------- the log of one VM ----------

  function Accepted(e: Ioctl, fd: Fd): seq<Cmd> {
    if e.fd == fd && e.ok then [e.cmd] else []
  }

  /** The commands of a VM that the firmware accepted, in order. */
  function Trace(log: seq<Ioctl>, fd: Fd): seq<Cmd>
    decreases |log|
  {
    if log == [] then [] else Trace(log[..|log|-1], fd) + Accepted(log[|log|-1], fd)
  }

  /** How often INIT succeeded for a VM. */
  function Inits(w: seq<Cmd>): nat {
    multiset(w)[INIT]
  }

  /** Whether a launch transition of the VM was attempted and failed. */
  ghost predicate Spoilt(log: seq<Ioctl>, fd: Fd) {
    exists e :: e in log && e.fd == fd && !e.ok && e.cmd in {START, MEASURE, FINISH}
  }

  lemma TraceSnoc(log: seq<Ioctl>, e: Ioctl, fd: Fd)
    ensures Trace(log + [e], fd) == Trace(log, fd) + Accepted(e, fd)
  {
    assert (log + [e])[..|log + [e]|-1] == log;
  }

  lemma {:induction false} LiveInits(w: seq<Cmd>)
    requires Walk(w) != Broken
    ensures Inits(w) == if w == [] then 0 else 1
    decreases |w|
  {
    if w != [] {
      LiveInits(w[..|w|-1]);
      assert w == w[..|w|-1] + [w[|w|-1]];
    }
  }

  // ---------- who has the launcher of a VM ----------

  datatype Holder = InTable(st: Stage) | InFlight(t: Tid)

  /** A call that has obtained a launcher and not yet stored it. */
  predicate Carries(a: Activity) {
    (a.call.SevInit? && (a.pc.Issued? || a.pc.Holding?)) || a.pc.Carrying()
  }

  predicate Holds(s: State, fd: Fd, h: Holder) {
    match h
    case InTable(st) => fd in s.maps.Get(st)
    case InFlight(t) => t in s.acts && s.acts[t].call.fd == fd && Carries(s.acts[t])
  }

  function TablePhase(st: Stage): Phase {
    match st
    case InitMap => Created
    case StartedMap => Running
    case MeasuredMap => Sealed
    case FinishedMap => Complete
  }

  function CarriedPhase(a: Activity): Phase {
    if a.call.SevInit? then Created
    else if a.pc.Taken? then TablePhase(Home(a.call)) else TablePhase(Dest(a.call))
  }

  function HolderPhase(s: State, h: Holder): Phase {
    match h
    case InTable(st) => TablePhase(st)
    case InFlight(t) => if t in s.acts then CarriedPhase(s.acts[t]) else Broken
  }

  /** The holder a step takes the launcher from, and the one it gives it to. */
  function Source(s: State, t: Tid): Option<Holder>
    requires t in s.acts
  {
    var a := s.acts[t];
    if a.pc.Holding? && a.call.SevInit? then Some(InFlight(t))
    else if a.pc.Holding? && ShapeOf(a.call).Move? && a.call.fd in s.maps.Get(Home(a.call)) then Some(InTable(Home(a.call)))
    else if a.pc.Taken? && MoveError(a.call).Some? then Some(InFlight(t))
    else if a.pc.Nested? then Some(InFlight(t))
    else None
  }

  function Target(s: State, t: Tid): Option<Holder>
    requires t in s.acts
  {
    var a := s.acts[t];
    if a.pc.Ready? && a.call.SevInit? && a.call.initIo.Ok? then Some(InFlight(t))
    else if a.pc.Holding? && a.call.SevInit? then Some(InTable(InitMap))
    else if a.pc.Holding? && ShapeOf(a.call).Move? && a.call.fd in s.maps.Get(Home(a.call)) then Some(InFlight(t))
    else if a.pc.Nested? then Some(InTable(Dest(a.call)))
    else None
  }

  lemma HoldsTableNext(s: State, t: Tid, fd: Fd, st: Stage)
    requires Inv(s) && Enabled(s, Step(t))
    ensures var h := InTable(st);
            Holds(Next(s, Step(t)), fd, h) <==>
              (if s.acts[t].call.fd == fd && Target(s, t) == Some(h) then true
               else Holds(s, fd, h) && !(s.acts[t].call.fd == fd && Source(s, t) == Some(h)))
  {
    assert Fits(s, s.acts[t]);
  }

  lemma HoldsFlightNext(s: State, t: Tid, fd: Fd, u: Tid)
    requires Inv(s) && Enabled(s, Step(t))
    ensures var h := InFlight(u);
            Holds(Next(s, Step(t)), fd, h) <==>
              (if s.acts[t].call.fd == fd && Target(s, t) == Some(h) then true
               else Holds(s, fd, h) && !(s.acts[t].call.fd == fd && Source(s, t) == Some(h)))
  {
    assert Fits(s, s.acts[t]);
  }

  lemma HoldsNext(s: State, t: Tid, fd: Fd, h: Holder)
    requires Inv(s) && Enabled(s, Step(t))
    ensures Holds(Next(s, Step(t)), fd, h) <==>
              (if s.acts[t].call.fd == fd && Target(s, t) == Some(h) then true
               else Holds(s, fd, h) && !(s.acts[t].call.fd == fd && Source(s, t) == Some(h)))
  {
    match h
    case InTable(st) => HoldsTableNext(s, t, fd, st);
    case InFlight(u) => HoldsFlightNext(s, t, fd, u);
  }

  ghost predicate Unheld(s: State, fd: Fd) {
    forall h :: !Holds(s, fd, h)
  }

  /** At most one holder, and it is in the phase the firmware is in. */
  ghost predicate InStep(s: State, fd: Fd, p: Phase) {
    && (forall h, h' :: Holds(s, fd, h) && Holds(s, fd, h') ==> h == h')
    && (forall h :: Holds(s, fd, h) ==> HolderPhase(s, h) == p)
  }

  /** What every reachable state satisfies for a VM whose INIT has succeeded at most once. */
  ghost predicate Orderly(s: State, fd: Fd) {
    var w := Trace(s.log, fd);
    && Walk(w) != Broken
    && (w == [] ==> Unheld(s, fd) && !Spoilt(s.log, fd))
    && (Spoilt(s.log, fd) ==> Unheld(s, fd))
    && InStep(s, fd, Walk(w))
  }

  lemma SourceHeld(s: State, t: Tid)
    requires Inv(s) && t in s.acts && Source(s, t).Some?
    ensures Holds(s, s.acts[t].call.fd, Source(s, t).value)
  {
    assert Fits(s, s.acts[t]);
  }

  /** A transfer without an ioctl keeps the phase. */
  lemma TransferPhase(s: State, t: Tid)
    requires Inv(s) && Enabled(s, Step(t)) && Source(s, t).Some? && Target(s, t).Some?
    ensures HolderPhase(Next(s, Step(t)), Target(s, t).value) == HolderPhase(s, Source(s, t).value)
  {
    assert Fits(s, s.acts[t]);
  }

  /** The step of a call keeps the phase of whatever other calls carry. */
  lemma PhaseFrame(s: State, t: Tid, h: Holder)
    requires Enabled(s, Step(t)) && h != InFlight(t)
    ensures HolderPhase(Next(s, Step(t)), h) == HolderPhase(s, h)
  {
  }

  lemma QuietCarrier(s: State, t: Tid)
    requires Inv(s) && Enabled(s, Step(t)) && !s.acts[t].pc.Taken?
    requires Carries(s.acts[t]) && Source(s, t) == None
    ensures CarriedPhase(Next(s, Step(t)).acts[t]) == CarriedPhase(s.acts[t])
  {
    assert Fits(s, s.acts[t]);
  }

  /** Steps that issue no ioctl hand the launcher on, or leave it where it is. */
  lemma OrderlyQuiet(s: State, t: Tid, fd: Fd)
    requires Inv(s) && Enabled(s, Step(t)) && Orderly(s, fd)
    requires !s.acts[t].pc.Taken? && (Target(s, t).Some? ==> Source(s, t).Some?)
    ensures InStep(Next(s, Step(t)), fd, Walk(Trace(s.log, fd)))
    ensures Unheld(s, fd) ==> Unheld(Next(s, Step(t)), fd)
  {
    var s' := Next(s, Step(t));
    if Source(s, t).Some? { SourceHeld(s, t); }
    forall h | Holds(s', fd, h)
      ensures exists g :: Holds(s, fd, g)
      ensures HolderPhase(s', h) == Walk(Trace(s.log, fd))
      ensures Holds(s, fd, h) || (s.acts[t].call.fd == fd && Target(s, t) == Some(h))
    {
      HoldsNext(s, t, fd, h);
      if s.acts[t].call.fd == fd && Target(s, t) == Some(h) {
        TransferPhase(s, t);
      } else if h == InFlight(t) {
        QuietCarrier(s, t);
      } else {
        PhaseFrame(s, t, h);
      }
    }
    forall h, h' | Holds(s', fd, h) && Holds(s', fd, h') ensures h == h' {
      HoldsNext(s, t, fd, h);
      HoldsNext(s, t, fd, h');
    }
  }

  // ---------- the ioctls of each step ----------

  lemma EventsOwn(a: Activity, i: nat)
    requires i < |Events(a)|
    ensures Events(a)[i].fd == a.call.fd
  {
  }

  lemma {:induction false} TraceAppend(log: seq<Ioctl>, es: seq<Ioctl>, fd: Fd)
    ensures Trace(log + es, fd) == Trace(log, fd) + Trace(es, fd)
    decreases |es|
  {
    if es == [] {
      assert log + es == log;
    } else {
      var front, e := es[..|es|-1], es[|es|-1];
      calc {
        Trace(log + es, fd);
        { assert log + es == log + front + [e]; TraceSnoc(log + front, e, fd); }
        Trace(log + front, fd) + Accepted(e, fd);
        { TraceAppend(log, front, fd); }
        Trace(log, fd) + Trace(front, fd) + Accepted(e, fd);
        Trace(log, fd) + (Trace(front, fd) + Accepted(e, fd));
      }
    }
  }

  lemma TraceOne(e: Ioctl, fd: Fd)
    ensures Trace([e], fd) == Accepted(e, fd)
  {
    TraceSnoc([], e, fd);
    assert [] + [e] == [e];
  }

  lemma {:induction false} TraceNone(es: seq<Ioctl>, fd: Fd)
    requires forall e :: e in es ==> e.fd != fd
    ensures Trace(es, fd) == []
    decreases |es|
  {
    if es != [] { TraceNone(es[..|es|-1], fd); }
  }

  lemma WalkAccepted(w: seq<Cmd>, e: Ioctl, fd: Fd)
    requires Accept(Walk(w), e.cmd) == Walk(w)
    ensures Walk(w + Accepted(e, fd)) == Walk(w)
  {
    if Accepted(e, fd) == [] { assert w + [] == w; } else { WalkSnoc(w, e.cmd); }
  }

  /** Commands that leave a phase alone do so however many there are. */
  lemma {:induction false} TraceStays(w: seq<Cmd>, es: seq<Ioctl>, fd: Fd)
    requires forall e :: e in es ==> Accept(Walk(w), e.cmd) == Walk(w)
    ensures Walk(w + Trace(es, fd)) == Walk(w)
    decreases |es|
  {
    if es == [] {
      assert w + [] == w;
    } else {
      var front, e := es[..|es|-1], es[|es|-1];
      TraceStays(w, front, fd);
      WalkAccepted(w + Trace(front, fd), e, fd);
      assert w + Trace(es, fd) == w + Trace(front, fd) + Accepted(e, fd);
    }
  }

  lemma SpoiltAppend(log: seq<Ioctl>, es: seq<Ioctl>, fd: Fd)
    ensures Spoilt(log + es, fd) <==> Spoilt(log, fd) || Spoilt(es, fd)
  {
    if Spoilt(log, fd) {
      var e :| e in log && e.fd == fd && !e.ok && e.cmd in {START, MEASURE, FINISH};
      assert e in log + es;
    }
    if Spoilt(es, fd) {
      var e :| e in es && e.fd == fd && !e.ok && e.cmd in {START, MEASURE, FINISH};
      assert e in log + es;
    }
  }

  lemma LogNext(s: State, t: Tid, fd: Fd)
    requires Enabled(s, Step(t))
    ensures var es := Events(s.acts[t]);
            && Trace(Next(s, Step(t)).log, fd) == Trace(s.log, fd) + Trace(es, fd)
            && (Spoilt(Next(s, Step(t)).log, fd) <==> Spoilt(s.log, fd) || Spoilt(es, fd))
  {
    TraceAppend(s.log, Events(s.acts[t]), fd);
    SpoiltAppend(s.log, Events(s.acts[t]), fd);
  }

  /** Other VMs see nothing of a step. */
  lemma EventsElsewhere(a: Activity, fd: Fd)
    requires a.call.fd != fd
    ensures Trace(Events(a), fd) == [] && !Spoilt(Events(a), fd)
  {
    forall e | e in Events(a) ensures e.fd != fd {
      var i :| 0 <= i < |Events(a)| && Events(a)[i] == e;
      EventsOwn(a, i);
    }
    TraceNone(Events(a), fd);
  }

  lemma UseAllowed(c: Call, i: nat)
    requires ShapeOf(c).Use? && i < |UseEvents(c)|
    ensures var cmd := UseEvents(c)[i].cmd;
            Accept(TablePhase(Home(c)), cmd) == TablePhase(Home(c)) && cmd !in {START, MEASURE, FINISH}
  {
  }

  /** Borrowing calls issue only commands that their phase allows. */
  lemma UseKeepsPhase(c: Call, w: seq<Cmd>)
    requires ShapeOf(c).Use? && Walk(w) == TablePhase(Home(c))
    ensures Walk(w + Trace(UseEvents(c), c.fd)) == Walk(w) && !Spoilt(UseEvents(c), c.fd)
  {
    forall e | e in UseEvents(c)
      ensures Accept(Walk(w), e.cmd) == Walk(w) && e.cmd !in {START, MEASURE, FINISH}
    {
      var i :| 0 <= i < |UseEvents(c)| && UseEvents(c)[i] == e;
      UseAllowed(c, i);
    }
    TraceStays(w, UseEvents(c), c.fd);
  }

  lemma OrderlyUse(s: State, t: Tid)
    requires Inv(s) && Enabled(s, Step(t)) && s.acts[t].pc.Borrowed? && Orderly(s, s.acts[t].call.fd)
    ensures Orderly(Next(s, Step(t)), s.acts[t].call.fd)
  {
    var c := s.acts[t].call;
    assert Fits(s, s.acts[t]);
    assert Holds(s, c.fd, InTable(Home(c)));
    LogNext(s, t, c.fd);
    UseKeepsPhase(c, Trace(s.log, c.fd));
    OrderlyQuiet(s, t, c.fd);
  }

  lemma OneEvent(s: State, t: Tid, e: Ioctl)
    requires Enabled(s, Step(t)) && Events(s.acts[t]) == [e]
    ensures var log' := Next(s, Step(t)).log;
            && Trace(log', e.fd) == (if e.ok then Trace(s.log, e.fd) + [e.cmd] else Trace(s.log, e.fd))
            && (Spoilt(log', e.fd) <==> Spoilt(s.log, e.fd) || (!e.ok && e.cmd in {START, MEASURE, FINISH}))
  {
    LogNext(s, t, e.fd);
    TraceOne(e, e.fd);
    assert e in [e];
    assert !e.ok ==> Trace(s.log, e.fd) + Accepted(e, e.fd) == Trace(s.log, e.fd);
  }

  /** The holders after the ioctl of a moving call. */
  lemma MoveHolders(s: State, t: Tid)
    requires Inv(s) && Enabled(s, Step(t)) && s.acts[t].pc.Taken? && Orderly(s, s.acts[t].call.fd)
    ensures var c, s' := s.acts[t].call, Next(s, Step(t));
            && Walk(Trace(s.log, c.fd)) == TablePhase(Home(c))
            && !Spoilt(s.log, c.fd)
            && InStep(s', c.fd, TablePhase(Dest(c)))
            && (MoveError(c).Some? ==> Unheld(s', c.fd))
  {
    var c, s' := s.acts[t].call, Next(s, Step(t));
    assert Fits(s, s.acts[t]);
    assert Holds(s, c.fd, InFlight(t));
    forall h | Holds(s', c.fd, h)
      ensures h == InFlight(t) && MoveError(c).None? && HolderPhase(s', h) == TablePhase(Dest(c))
    {
      HoldsNext(s, t, c.fd, h);
    }
  }

  lemma MoveAccepted(c: Call)
    requires ShapeOf(c).Move?
    ensures Accept(TablePhase(Home(c)), MoveCmd(c)) == TablePhase(Dest(c))
    ensures MoveCmd(c) in {START, MEASURE, FINISH}
  {
  }

  /** What the ioctl of a moving call adds to the history of its VM. */
  lemma MoveTrace(s: State, t: Tid)
    requires Enabled(s, Step(t)) && s.acts[t].pc.Taken? && ShapeOf(s.acts[t].call).Move?
    requires Walk(Trace(s.log, s.acts[t].call.fd)) == TablePhase(Home(s.acts[t].call))
    ensures var c, s' := s.acts[t].call, Next(s, Step(t));
            && Walk(Trace(s'.log, c.fd)) == TablePhase(if MoveError(c).None? then Dest(c) else Home(c))
            && (Spoilt(s'.log, c.fd) <==> Spoilt(s.log, c.fd) || MoveError(c).Some?)
  {
    var c := s.acts[t].call;
    MoveAccepted(c);
    OneEvent(s, t, Ioctl(c.fd, MoveCmd(c), MoveError(c).None?));
    WalkSnoc(Trace(s.log, c.fd), MoveCmd(c));
  }

  lemma OrderlyFrom(s: State, fd: Fd, st: Stage, lost: bool)
    requires Walk(Trace(s.log, fd)) == TablePhase(st)
    requires if lost then Unheld(s, fd) else !Spoilt(s.log, fd) && InStep(s, fd, TablePhase(st))
    ensures Orderly(s, fd)
  {
  }

  lemma OrderlyMove(s: State, t: Tid)
    requires Inv(s) && Enabled(s, Step(t)) && s.acts[t].pc.Taken? && Orderly(s, s.acts[t].call.fd)
    ensures Orderly(Next(s, Step(t)), s.acts[t].call.fd)
  {
    var c := s.acts[t].call;
    assert ShapeOf(c).Move? by { assert Fits(s, s.acts[t]); }
    MoveHolders(s, t);
    MoveTrace(s, t);
    var ok := MoveError(c).None?;
    OrderlyFrom(Next(s, Step(t)), c.fd, if ok then Dest(c) else Home(c), !ok);
  }

  lemma InitHolders(s: State, t: Tid)
    requires Inv(s) && Enabled(s, Step(t)) && s.acts[t].pc.Ready? && s.acts[t].call.SevInit?
    requires Unheld(s, s.acts[t].call.fd)
    ensures InStep(Next(s, Step(t)), s.acts[t].call.fd, Created)
  {
    var c, s' := s.acts[t].call, Next(s, Step(t));
    forall h | Holds(s', c.fd, h) ensures h == InFlight(t) {
      HoldsNext(s, t, c.fd, h);
    }
  }

  lemma OrderlyInit(s: State, t: Tid)
    requires Inv(s) && Enabled(s, Step(t)) && s.acts[t].pc.Ready? && s.acts[t].call.SevInit?
    requires Orderly(s, s.acts[t].call.fd) && Inits(Trace(Next(s, Step(t)).log, s.acts[t].call.fd)) <= 1
    ensures Orderly(Next(s, Step(t)), s.acts[t].call.fd)
  {
    var c := s.acts[t].call;
    var w := Trace(s.log, c.fd);
    OneEvent(s, t, Ioctl(c.fd, INIT, c.initIo.Ok?));
    if c.initIo.Ok? {
      LiveInits(w);
      WalkSnoc(w, INIT);
      assert w == [];
      InitHolders(s, t);
    } else {
      OrderlyQuiet(s, t, c.fd);
    }
  }

  lemma OrderlyElsewhere(s: State, t: Tid, fd: Fd)
    requires Inv(s) && Enabled(s, Step(t)) && Orderly(s, fd) && s.acts[t].call.fd != fd
    ensures Orderly(Next(s, Step(t)), fd)
  {
    var s' := Next(s, Step(t));
    LogNext(s, t, fd);
    EventsElsewhere(s.acts[t], fd);
    assert Trace(s.log, fd) + [] == Trace(s.log, fd);
    forall h ensures Holds(s', fd, h) <==> Holds(s, fd, h) {
      HoldsNext(s, t, fd, h);
    }
    forall h | Holds(s', fd, h) ensures HolderPhase(s', h) == HolderPhase(s, h) {
      PhaseFrame(s, t, h);
    }
  }

  lemma OrderlySilent(s: State, t: Tid)
    requires Inv(s) && Enabled(s, Step(t)) && Orderly(s, s.acts[t].call.fd) && Events(s.acts[t]) == []
    requires !s.acts[t].pc.Taken? && (Target(s, t).Some? ==> Source(s, t).Some?)
    ensures Orderly(Next(s, Step(t)), s.acts[t].call.fd)
  {
    assert s.log + [] == s.log;
    OrderlyQuiet(s, t, s.acts[t].call.fd);
  }

  lemma OrderlyStep(s: State, t: Tid, fd: Fd)
    requires Inv(s) && Enabled(s, Step(t)) && Orderly(s, fd)
    requires Inits(Trace(Next(s, Step(t)).log, fd)) <= 1
    ensures Orderly(Next(s, Step(t)), fd)
  {
    var a := s.acts[t];
    if a.call.fd != fd {
      OrderlyElsewhere(s, t, fd);
    } else if a.pc.Ready? && a.call.SevInit? {
      OrderlyInit(s, t);
    } else if a.pc.Borrowed? {
      OrderlyUse(s, t);
    } else if a.pc.Taken? {
      OrderlyMove(s, t);
    } else {
      OrderlySilent(s, t);
    }
  }

  lemma OrderlyInvoke(s: State, t: Tid, c: Call, fd: Fd)
    requires Enabled(s, Invoke(t, c)) && Orderly(s, fd)
    ensures Orderly(Next(s, Invoke(t, c)), fd)
  {
    var s' := Next(s, Invoke(t, c));
    forall h ensures Holds(s', fd, h) <==> Holds(s, fd, h) {
    }
    forall h | Holds(s', fd, h) ensures HolderPhase(s', h) == HolderPhase(s, h) {
    }
  }

  lemma OrderlyAlways(run: seq<Label>, fd: Fd)
    requires IsRun(Initial(EMPTY), run) && Inits(Trace(After(Initial(EMPTY), run).log, fd)) <= 1
    ensures Orderly(After(Initial(EMPTY), run), fd)
    decreases |run|
  {
    if run != [] {
      var before, l := run[..|run|-1], run[|run|-1];
      var s := After(Initial(EMPTY), before);
      InvAlways(EMPTY, before);
      match l
      case Invoke(t, c) =>
        OrderlyAlways(before, fd);
        OrderlyInvoke(s, t, c, fd);
      case Step(t) =>
        LogNext(s, t, fd);
        OrderlyAlways(before, fd);
        OrderlyStep(s, t, fd);
    }
  }

  // ---------- type-states ----------

  /** A launcher of VM `fd` in the type-state its table stands for. */
  predicate TypedFor(st: Stage, fd: Fd, l: Launcher) {
    && l.vmFd == fd
    && match st
       case InitMap => l.New?
       case StartedMap => l.Started?
       case MeasuredMap => l.Measured?
       case FinishedMap => l.Finished?
  }

  predicate TypedActivity(a: Activity) {
    && (a.pc.Carrying() ==> TypedFor(Home(a.call), a.call.fd, a.pc.from))
    && (a.pc.Advanced? || a.pc.Nested? ==> TypedFor(Dest(a.call), a.call.fd, a.pc.to))
  }

  ghost predicate Typed(s: State) {
    && (forall st, fd :: fd in s.maps.Get(st) ==> TypedFor(st, fd, s.maps.Get(st)[fd]))
    && (forall t :: t in s.acts ==> TypedActivity(s.acts[t]))
  }

  lemma TypedNext(s: State, t: Tid)
    requires Inv(s) && Typed(s) && Enabled(s, Step(t))
    ensures Typed(Next(s, Step(t)))
  {
    var a, s' := s.acts[t], Next(s, Step(t));
    assert Fits(s, a) && TypedActivity(a);
    assert TypedActivity(s'.acts[t]);
    forall st, fd | fd in s'.maps.Get(st) ensures TypedFor(st, fd, s'.maps.Get(st)[fd]) {
      assert fd in s.maps.Get(st) ==> TypedFor(st, fd, s.maps.Get(st)[fd]);
    }
  }

  /** Run-time tables respect the type-states that Rust checks at compile time: every launcher
      is filed under its own VM and its own state. */
  lemma TablesAreTyped(run: seq<Label>)
    requires IsRun(Initial(EMPTY), run)
    ensures Typed(After(Initial(EMPTY), run))
    decreases |run|
  {
    if run != [] {
      var before, l := run[..|run|-1], run[|run|-1];
      TablesAreTyped(before);
      InvAlways(EMPTY, before);
      if l.Step? { TypedNext(After(Initial(EMPTY), before), l.tid); }
    }
  }

  // ---------- the theorems ----------

  /** The commands a VM's firmware accepted over any concurrent run form a prefix of a
      launch if and only if INIT succeeded at most once for it. */
  lemma LaunchOrder(run: seq<Label>, fd: Fd)
    requires IsRun(Initial(EMPTY), run)
    ensures var w := Trace(After(Initial(EMPTY), run).log, fd);
            IsLaunchPrefix(w) <==> Inits(w) <= 1
  {
    var w := Trace(After(Initial(EMPTY), run).log, fd);
    WalkMeansPrefix(w);
    if Inits(w) <= 1 { OrderlyAlways(run, fd); }
    if Walk(w) != Broken { LiveInits(w); }
  }

  // ---------- at most one launcher ----------

  /** At most one table or call has the launcher of a VM. */
  ghost predicate OneHolder(s: State, fd: Fd) {
    forall h, h' :: Holds(s, fd, h) && Holds(s, fd, h') ==> h == h'
  }

  /** A step at which INIT succeeds for a VM. */
  predicate InitSucceeds(s: State, l: Label, fd: Fd) {
    && l.Step? && l.tid in s.acts && s.acts[l.tid].pc.Ready?
    && s.acts[l.tid].call.SevInit? && s.acts[l.tid].call.fd == fd && s.acts[l.tid].call.initIo.Ok?
  }

  /** The guard a caller would have to check before `sev_init`. */
  ghost predicate CleanInit(s: State, l: Label, fd: Fd) {
    InitSucceeds(s, l, fd) ==> Unheld(s, fd)
  }

  /** At every moment of a run at most one table or call has the launcher. */
  ghost predicate AlwaysOne(run: seq<Label>, fd: Fd) {
    forall k: nat :: k <= |run| ==> IsRun(Initial(EMPTY), run[..k]) && OneHolder(After(Initial(EMPTY), run[..k]), fd)
  }

  /** Every INIT that succeeds finds no launcher of its VM anywhere. */
  ghost predicate AlwaysClean(run: seq<Label>, fd: Fd) {
    forall k: nat :: k < |run| ==>
      IsRun(Initial(EMPTY), run[..k]) && CleanInit(After(Initial(EMPTY), run[..k]), run[k], fd)
  }

  lemma HoldersKept(s: State, t: Tid, fd: Fd)
    requires Inv(s) && Enabled(s, Step(t)) && OneHolder(s, fd) && !InitSucceeds(s, Step(t), fd)
    ensures OneHolder(Next(s, Step(t)), fd)
  {
    var s' := Next(s, Step(t));
    if Source(s, t).Some? { SourceHeld(s, t); }
    forall h, h' | Holds(s', fd, h) && Holds(s', fd, h') ensures h == h' {
      HoldsNext(s, t, fd, h);
      HoldsNext(s, t, fd, h');
    }
  }

  lemma HolderAdded(s: State, t: Tid, fd: Fd)
    requires Inv(s) && Enabled(s, Step(t)) && InitSucceeds(s, Step(t), fd)
    ensures OneHolder(Next(s, Step(t)), fd) <==> Unheld(s, fd)
  {
    var s' := Next(s, Step(t));
    forall h ensures Holds(s', fd, h) <==> h == InFlight(t) || Holds(s, fd, h) {
      HoldsNext(s, t, fd, h);
    }
    assert !Holds(s, fd, InFlight(t)) && Holds(s', fd, InFlight(t));
    if !Unheld(s, fd) {
      var h :| Holds(s, fd, h);
      assert Holds(s', fd, h) && h != InFlight(t);
    }
  }

  /** One step keeps a VM with one holder if and only if it is not an unclean INIT. */
  lemma OneHolderNext(s: State, l: Label, fd: Fd)
    requires Inv(s) && Enabled(s, l) && OneHolder(s, fd)
    ensures OneHolder(Next(s, l), fd) <==> CleanInit(s, l, fd)
  {
    match l
    case Invoke(t, c) =>
      forall h ensures Holds(Next(s, l), fd, h) <==> Holds(s, fd, h) {
      }
    case Step(t) =>
      if InitSucceeds(s, l, fd) { HolderAdded(s, t, fd); } else { HoldersKept(s, t, fd); }
  }

  lemma AlwaysSnoc(run: seq<Label>, fd: Fd)
    requires run != [] && IsRun(Initial(EMPTY), run)
    ensures var before := run[..|run|-1];
            && (AlwaysOne(run, fd) <==> AlwaysOne(before, fd) && OneHolder(After(Initial(EMPTY), run), fd))
            && (AlwaysClean(run, fd) <==>
                  AlwaysClean(before, fd) && CleanInit(After(Initial(EMPTY), before), run[|run|-1], fd))
  {
    var before := run[..|run|-1];
    forall k: nat | k <= |before| ensures before[..k] == run[..k] {
    }
    assert run[..|run|] == run && run[..|before|] == before;
    forall k: nat | k < |before| ensures before[k] == run[k] {
    }
  }

  /** The exact condition for a VM to be in one place: at every moment of a run at most one
      table or call has its launcher, if and only if every INIT that succeeds for it finds it
      in no table and carried by no call. */
  lemma OneHolderExact(run: seq<Label>, fd: Fd)
    requires IsRun(Initial(EMPTY), run)
    ensures AlwaysOne(run, fd) <==> AlwaysClean(run, fd)
    decreases |run|
  {
    if run == [] {
      assert run[..0] == run;
    } else {
      var before := run[..|run|-1];
      OneHolderExact(before, fd);
      AlwaysSnoc(run, fd);
      InvAlways(EMPTY, before);
      if AlwaysOne(before, fd) {
        assert before[..|before|] == before;
        OneHolderNext(After(Initial(EMPTY), before), run[|run|-1], fd);
      }
    }
  }

  lemma InitsGrow(run: seq<Label>, fd: Fd)
    requires run != [] && IsRun(Initial(EMPTY), run)
    ensures Inits(Trace(After(Initial(EMPTY), run[..|run|-1]).log, fd)) <=
            Inits(Trace(After(Initial(EMPTY), run).log, fd))
  {
    var s, l := After(Initial(EMPTY), run[..|run|-1]), run[|run|-1];
    if l.Step? { LogNext(s, l.tid, fd); }
  }

  lemma OnceIsOneHolder(run: seq<Label>, fd: Fd)
    requires IsRun(Initial(EMPTY), run) && Inits(Trace(After(Initial(EMPTY), run).log, fd)) <= 1
    ensures OneHolder(After(Initial(EMPTY), run), fd)
  {
    OrderlyAlways(run, fd);
  }

  lemma {:induction false} OnceIsOne(run: seq<Label>, fd: Fd)
    requires IsRun(Initial(EMPTY), run) && Inits(Trace(After(Initial(EMPTY), run).log, fd)) <= 1
    ensures AlwaysOne(run, fd)
    decreases |run|
  {
    OnceIsOneHolder(run, fd);
    if run == [] {
      assert run[..0] == run;
    } else {
      InitsGrow(run, fd);
      OnceIsOne(run[..|run|-1], fd);
      AlwaysSnoc(run, fd);
    }
  }

  /** In particular INIT is clean where it succeeds only once. */
  lemma OnceIsClean(run: seq<Label>, fd: Fd)
    requires IsRun(Initial(EMPTY), run) && Inits(Trace(After(Initial(EMPTY), run).log, fd)) <= 1
    ensures AlwaysClean(run, fd)
  {
    OnceIsOne(run, fd);
    OneHolderExact(run, fd);
  }

  /** A VM whose INITs are clean is in at most one table, and in none while a call carries it. */
  lemma OneTable(run: seq<Label>, fd: Fd, st: Stage)
    requires IsRun(Initial(EMPTY), run) && AlwaysClean(run, fd)
    requires fd in After(Initial(EMPTY), run).maps.Get(st)
    ensures var s := After(Initial(EMPTY), run);
            && (forall st' :: fd in s.maps.Get(st') ==> st' == st)
            && (forall t :: t in s.acts && s.acts[t].call.fd == fd ==> !Carries(s.acts[t]))
  {
    var s := After(Initial(EMPTY), run);
    OneHolderExact(run, fd);
    assert run[..|run|] == run;
    assert OneHolder(s, fd) && Holds(s, fd, InTable(st));
    forall st' | fd in s.maps.Get(st') ensures st' == st {
      assert Holds(s, fd, InTable(st'));
    }
    forall t | t in s.acts && s.acts[t].call.fd == fd ensures !Carries(s.acts[t]) {
      assert Holds(s, fd, InFlight(t)) ==> InFlight(t) == InTable(st);
    }
  }

  /** The table of a VM initialised once is the one its accepted commands imply. */
  lemma TableOfTrace(run: seq<Label>, fd: Fd, st: Stage)
    requires IsRun(Initial(EMPTY), run)
    requires var s := After(Initial(EMPTY), run);
             Inits(Trace(s.log, fd)) <= 1 && fd in s.maps.Get(st)
    ensures Walk(Trace(After(Initial(EMPTY), run).log, fd)) == TablePhase(st)
  {
    OrderlyAlways(run, fd);
    assert Holds(After(Initial(EMPTY), run), fd, InTable(st));
  }

  /** A VM initialised again while it is launching is in two tables, and the C API does not
      prevent it. */
  lemma SecondInit(fd: Fd, sevFd: Fd, handle: Handle) returns (run: seq<Label>)
    ensures IsRun(Initial(EMPTY), run) && !AlwaysOne(run, fd)
    ensures var s := After(Initial(EMPTY), run);
            AllReturned(s) && fd in s.maps.init && fd in s.maps.started
  {
    var a, b := SevInit(fd, sevFd, false, Ok(())), LaunchStart(fd, Ok(handle));
    var s, order;
    run, s, order := Achievable(EMPTY, [a] + [b] + [a]);
    ReplayThree(a, b, a);
    assert run[..|run|] == run && Holds(s, fd, InTable(InitMap)) && Holds(s, fd, InTable(StartedMap));
    assert !OneHolder(s, fd);
  }

  /** After a failed start the VM can be initialised a second time without being in two. */
  lemma InitAgain(fd: Fd, sevFd: Fd, code: int) returns (run: seq<Label>)
    ensures IsRun(Initial(EMPTY), run)
    ensures var s := After(Initial(EMPTY), run);
            AllReturned(s) && forall st :: fd in s.maps.Get(st) <==> st == InitMap
  {
    var a, b := SevInit(fd, sevFd, false, Ok(())), LaunchStart(fd, Err(code));
    var s, order;
    run, s, order := Achievable(EMPTY, [a] + [b] + [a]);
    ReplayThree(a, b, a);
  }

  lemma ReplayThree(a: Call, b: Call, c: Call)
    ensures Replay(EMPTY, [a] + [b] + [c]).0 == Serial(Serial(Serial(EMPTY, a).0, b).0, c).0
  {
    assert [] + [a] == [a];
    ReplaySnoc(EMPTY, [], a);
    ReplaySnoc(EMPTY, [a], b);
    ReplaySnoc(EMPTY, [a] + [b], c);
  }

  // ---------- failures are final ----------

  /** A call on a VM has not been granted anything: it is undecided or was refused. */
  predicate NotGranted(s: State, t: Tid) {
    t in s.acts && !s.acts[t].call.SevInit? && s.acts[t].pc.Decided() ==> s.acts[t].pc.ret == REFUSED
  }

  lemma RefusedNext(s: State, l: Label, t: Tid)
    requires Inv(s) && Enabled(s, l) && NotGranted(s, t)
    requires t in s.acts ==> Unheld(s, s.acts[t].call.fd)
    ensures NotGranted(Next(s, l), t)
  {
    if l == Step(t) {
      var a := s.acts[t];
      assert Fits(s, a);
      assert !Holds(s, a.call.fd, InFlight(t)) && !Holds(s, a.call.fd, InTable(Home(a.call)));
    }
  }

  lemma SpoiltStays(s: State, l: Label, fd: Fd)
    requires Enabled(s, l) && Spoilt(s.log, fd)
    ensures Spoilt(Next(s, l).log, fd)
  {
    if l.Step? { LogNext(s, l.tid, fd); }
  }

  lemma SpoiltIsUnheld(run: seq<Label>, fd: Fd)
    requires IsRun(Initial(EMPTY), run) && Inits(Trace(After(Initial(EMPTY), run).log, fd)) <= 1
    requires Spoilt(After(Initial(EMPTY), run).log, fd)
    ensures Unheld(After(Initial(EMPTY), run), fd)
  {
    OrderlyAlways(run, fd);
  }

  lemma {:induction false} SpoiltLater(run: seq<Label>, k: nat, fd: Fd)
    requires k <= |run| && IsRun(Initial(EMPTY), run) && IsRun(Initial(EMPTY), run[..k])
    requires Spoilt(After(Initial(EMPTY), run[..k]).log, fd)
    ensures Spoilt(After(Initial(EMPTY), run).log, fd)
    decreases |run|
  {
    if k < |run| {
      var before := run[..|run|-1];
      assert before[..k] == run[..k];
      SpoiltLater(before, k, fd);
      SpoiltStays(After(Initial(EMPTY), before), run[|run|-1], fd);
    } else {
      assert run[..k] == run;
    }
  }

  lemma CallsStay(s: State, l: Label, t: Tid)
    requires Enabled(s, l) && t in s.acts
    ensures t in Next(s, l).acts && Next(s, l).acts[t].call == s.acts[t].call
  {
  }

  lemma RefusedOneMore(run: seq<Label>, fd: Fd, t: Tid)
    requires run != [] && IsRun(Initial(EMPTY), run)
    requires var s := After(Initial(EMPTY), run[..|run|-1]);
             Spoilt(s.log, fd) && Inits(Trace(s.log, fd)) <= 1 && NotGranted(s, t)
    requires t in After(Initial(EMPTY), run).acts && After(Initial(EMPTY), run).acts[t].call.fd == fd
    ensures NotGranted(After(Initial(EMPTY), run), t)
  {
    var before, l := run[..|run|-1], run[|run|-1];
    var s := After(Initial(EMPTY), before);
    SpoiltIsUnheld(before, fd);
    InvAlways(EMPTY, before);
    if t in s.acts { CallsStay(s, l, t); }
    RefusedNext(s, l, t);
  }

  lemma {:induction false} RefusedLater(run: seq<Label>, k: nat, fd: Fd, t: Tid)
    requires k <= |run| && IsRun(Initial(EMPTY), run) && IsRun(Initial(EMPTY), run[..k])
    requires Spoilt(After(Initial(EMPTY), run[..k]).log, fd)
    requires Inits(Trace(After(Initial(EMPTY), run).log, fd)) <= 1
    requires t in After(Initial(EMPTY), run).acts && After(Initial(EMPTY), run).acts[t].call.fd == fd
    requires NotGranted(After(Initial(EMPTY), run[..k]), t)
    ensures NotGranted(After(Initial(EMPTY), run), t)
    decreases |run|
  {
    if k < |run| {
      var before := run[..|run|-1];
      var s := After(Initial(EMPTY), before);
      assert before[..k] == run[..k];
      InitsGrow(run, fd);
      SpoiltLater(before, k, fd);
      if t in s.acts {
        CallsStay(s, run[|run|-1], t);
        RefusedLater(before, k, fd, t);
      }
      RefusedOneMore(run, fd, t);
    } else {
      assert run[..k] == run;
    }
  }

  /** A start, measure or finish that the firmware refused is final: whatever happens after it
      in a run that does not initialise the VM again, every call on the VM that was not decided
      by then, or is made later, is refused, and the VM stays in no table. */
  lemma FailureIsFinal(run: seq<Label>, k: nat, fd: Fd, t: Tid)
    requires k <= |run| && IsRun(Initial(EMPTY), run) && IsRun(Initial(EMPTY), run[..k])
    requires Spoilt(After(Initial(EMPTY), run[..k]).log, fd)
    requires Inits(Trace(After(Initial(EMPTY), run).log, fd)) <= 1
    requires var early, late := After(Initial(EMPTY), run[..k]), After(Initial(EMPTY), run);
             && t in late.acts && late.acts[t].call.fd == fd && !late.acts[t].call.SevInit?
             && late.acts[t].pc.Decided() && (t in early.acts ==> !early.acts[t].pc.Decided())
    ensures After(Initial(EMPTY), run).acts[t].pc.ret == REFUSED
    ensures forall st :: fd !in After(Initial(EMPTY), run).maps.Get(st)
  {
    RefusedLater(run, k, fd, t);
    SpoiltLater(run, k, fd);
    SpoiltIsUnheld(run, fd);
    forall st ensures fd !in After(Initial(EMPTY), run).maps.Get(st) {
      assert !Holds(After(Initial(EMPTY), run), fd, InTable(st));
    }
  }
}
