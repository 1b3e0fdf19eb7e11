/** The launch API as a concurrent machine.

    Any number of calls may be in progress.  Each is a small program over the four
    tables and their mutexes; one step is one lock acquisition, one release, one
    access to a table, or one ioctl.  Moving calls (`sev_launch_start`, `_measure`,
    `_finish`) take the destination lock while still holding the source lock. */
module LaunchMachine {
  import opened LaunchRegistry
  import opened Outcomes

  type Tid = nat

  datatype Shape = Create | Move | Use

  function ShapeOf(c: Call): Shape {
    match c
    case SevInit(_, _, _, _) => Create
    case LaunchStart(_, _) => Move
    case LaunchMeasure(_, _) => Move
    case LaunchFinish(_, _) => Move
    case _ => Use
  }

  /** The table a call locks first. */
  function Home(c: Call): Stage {
    match c
    case SevInit(_, _, _, _) => InitMap
    case LaunchStart(_, _) => InitMap
    case UpdateData(_, _, _) => StartedMap
    case UpdateVmsa(_, _) => StartedMap
    case LaunchMeasure(_, _) => StartedMap
    case InjectSecret(_, _) => MeasuredMap
    case LaunchFinish(_, _) => MeasuredMap
    case AttestationReport(_, _, _, _) => FinishedMap
  }

  /** The table a moving call inserts into. */
  function Dest(c: Call): Stage {
    match c
    case LaunchStart(_, _) => StartedMap
    case LaunchMeasure(_, _) => MeasuredMap
    case _ => FinishedMap
  }

  datatype Cmd = INIT | START | UPDATE | MEASURE | SECRET | FINISH | REPORT

  /** One launch ioctl that was issued, and whether it succeeded. */
  datatype Ioctl = Ioctl(fd: Fd, cmd: Cmd, ok: bool)

  /** Where a call is.  `from` is the launcher taken out of the home table and `to`
      the launcher in its next type-state. */
  datatype Pc =
    | Ready
    | Issued
    | Holding
    | Borrowed
    | Taken(from: Launcher)
    | Advanced(from: Launcher, to: Launcher)
    | Nested(from: Launcher, to: Launcher)
    | Unnesting(ret: Ret)
    | Leaving(ret: Ret)
    | Returned(ret: Ret)
  {
    predicate Decided() { Unnesting? || Leaving? || Returned? }
    predicate Carrying() { Taken? || Advanced? || Nested? }
  }

  datatype Activity = Activity(call: Call, pc: Pc)

  datatype State = State(
    maps: Maps,
    held: map<Stage, Tid>,
    acts: map<Tid, Activity>,
    log: seq<Ioctl>)

  function Initial(m: Maps): State {
    State(m, map[], map[], [])
  }

  /** `Invoke` starts a call under a fresh identity; `Step` runs one step of a call. */
  datatype Label = Invoke(tid: Tid, call: Call) | Step(tid: Tid)

  /** The lock a call is waiting for, if its next step is an acquisition. */
  function Wants(a: Activity): Option<Stage> {
    match a.pc
    case Ready => if ShapeOf(a.call).Create? then None else Some(Home(a.call))
    case Issued => Some(InitMap)
    case Advanced(_, _) => Some(Dest(a.call))
    case _ => None
  }

  predicate Enabled(s: State, l: Label) {
    match l
    case Invoke(t, _) => t !in s.acts
    case Step(t) =>
      && t in s.acts
      && !s.acts[t].pc.Returned?
      && (Wants(s.acts[t]).Some? ==> Wants(s.acts[t]).value !in s.held)
  }

  /** The ioctls a borrowing call issues on its launcher, and the value it returns. */
  function UseEvents(c: Call): seq<Ioctl> {
    match c
    case UpdateData(fd, region, io) => if region.Err? then [] else [Ioctl(fd, UPDATE, io.Ok?)]
    case UpdateVmsa(fd, io) => [Ioctl(fd, UPDATE, io.Ok?)]
    case InjectSecret(fd, io) => [Ioctl(fd, SECRET, io.Ok?)]
    case AttestationReport(fd, nonceLen, probe, io) =>
      if nonceLen != 16 then []
      else [Ioctl(fd, REPORT, probe.ProbeOk?)] + (if probe.ProbeErr? then [] else [Ioctl(fd, REPORT, io.Ok?)])
    case _ => []
  }

  function UseRet(c: Call): Ret {
    match c
    case UpdateData(_, region, io) => if region.Err? then FwFailed(region.code) else Plain(io)
    case UpdateVmsa(_, io) => Plain(io)
    case InjectSecret(_, io) => Plain(io)
    case AttestationReport(_, nonceLen, probe, io) =>
      if nonceLen != 16 then REFUSED
      else if probe.ProbeErr? then FwFailed(probe.code)
      else if io.Err? then FwFailed(io.code) else REFUSED
    case _ => REFUSED
  }

  /** The ioctl of a moving call. */
  function MoveCmd(c: Call): Cmd {
    match c
    case LaunchStart(_, _) => START
    case LaunchMeasure(_, _) => MEASURE
    case _ => FINISH
  }

  function MoveError(c: Call): Option<int> {
    match c
    case LaunchStart(_, Err(code)) => Some(code)
    case LaunchMeasure(_, Err(code)) => Some(code)
    case LaunchFinish(_, Err(code)) => Some(code)
    case _ => None
  }

  /** The launcher in its next type-state, once the ioctl has succeeded. */
  function Advance(l: Launcher, c: Call): Launcher {
    match c
    case LaunchStart(_, Ok(handle)) => Started(l.vmFd, l.sevFd, handle)
    case LaunchMeasure(_, Ok(msr)) => Measured(l.vmFd, l.sevFd, HandleOf(l), msr)
    case _ => Finished(l.vmFd, l.sevFd)
  }

  /** What a moving call returns, given whether its insertion replaced a launcher. */
  function MoveRet(c: Call, replaced: bool): Ret {
    match c
    case LaunchStart(_, _) => if replaced then REFUSED else SUCCESS
    case LaunchMeasure(_, Ok(msr)) => Ret(0, None, Some(msr))
    case _ => SUCCESS
  }

  /** The locks after one step of call `t`. */
  function NextHeld(held: map<Stage, Tid>, t: Tid, a: Activity): map<Stage, Tid> {
    if Wants(a).Some? then held[Wants(a).value := t]
    else if a.pc.Unnesting? then held - {Dest(a.call)}
    else if a.pc.Leaving? then held - {Home(a.call)}
    else held
  }

  /** The tables after one step of a call. */
  function NextMaps(m: Maps, a: Activity): Maps {
    var c := a.call;
    if a.pc.Holding? && c.SevInit? then m.(init := m.init[c.fd := New(c.fd, c.sevFd)])
    else if a.pc.Holding? && ShapeOf(c).Move? then m.Put(Home(c), m.Get(Home(c)) - {c.fd})
    else if a.pc.Nested? then m.Put(Dest(c), m.Get(Dest(c))[c.fd := a.pc.to])
    else m
  }

  /** The ioctls one step of a call issues. */
  function Events(a: Activity): seq<Ioctl> {
    var c := a.call;
    if a.pc.Ready? && c.SevInit? then [Ioctl(c.fd, INIT, c.initIo.Ok?)]
    else if a.pc.Borrowed? then UseEvents(c)
    else if a.pc.Taken? then [Ioctl(c.fd, MoveCmd(c), MoveError(c).None?)]
    else []
  }

  /** Where one step takes a call, given the tables before the step. */
  function NextPc(m: Maps, a: Activity): Pc {
    var c := a.call;
    match a.pc
    case Ready =>
      if !c.SevInit? then Holding else if c.initIo.Ok? then Issued else Returned(FwFailed(c.initIo.code))
    case Issued => Holding
    case Holding =>
      if c.SevInit? then Leaving(SUCCESS)
      else if c.fd !in m.Get(Home(c)) then Leaving(REFUSED)
      else if ShapeOf(c).Use? then Borrowed
      else Taken(m.Get(Home(c))[c.fd])
    case Borrowed => Leaving(UseRet(c))
    case Taken(from) =>
      if MoveError(c).Some? then Leaving(FwFailed(MoveError(c).value)) else Advanced(from, Advance(from, c))
    case Advanced(from, to) => Nested(from, to)
    case Nested(_, _) => Unnesting(MoveRet(c, c.fd in m.Get(Dest(c))))
    case Unnesting(ret) => Leaving(ret)
    case Leaving(ret) => Returned(ret)
    case Returned(ret) => Returned(ret)
  }

  function Next(s: State, l: Label): State
    requires Enabled(s, l)
  {
    match l
    case Invoke(t, c) => s.(acts := s.acts[t := Activity(c, Ready)])
    case Step(t) =>
      var a := s.acts[t];
      State(NextMaps(s.maps, a), NextHeld(s.held, t, a), s.acts[t := Activity(a.call, NextPc(s.maps, a))],
            s.log + Events(a))
  }

  /** A run is a sequence of labels, each enabled where it is taken. */
  ghost predicate IsRun(s: State, run: seq<Label>)
    decreases |run|, 0
  {
    run == [] || (IsRun(s, run[..|run|-1]) && Enabled(After(s, run[..|run|-1]), run[|run|-1]))
  }

  ghost function After(s: State, run: seq<Label>): State
    requires IsRun(s, run)
    decreases |run|, 1
  {
    if run == [] then s else Next(After(s, run[..|run|-1]), run[|run|-1])
  }
}
