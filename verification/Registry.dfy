/** The sequential meaning of the C launch API: four global tables of launchers,
    keyed by the VM file descriptor, and the eight calls that work on them.

    Every ioctl is an oracle: the outcome the kernel would give is attached to the call. */
module LaunchRegistry {

  import opened Outcomes

  type Fd = int

  /** Opaque payloads handed out by the firmware. */
  type Handle = int
  type Measurement = int

  /** The result of one ioctl. */
  datatype Outcome<+T> = Ok(value: T) | Err(code: int)

  /** The result of the first, length-probing, ioctl of an attestation report. */
  datatype Probe = ProbeOk | ProbeInvalidLen | ProbeErr(code: int)

  /** `Launcher<T, RawFd, RawFd>` in each of its four type-states. */
  datatype Launcher =
    | New(vmFd: Fd, sevFd: Fd)
    | Started(vmFd: Fd, sevFd: Fd, handle: Handle)
    | Measured(vmFd: Fd, sevFd: Fd, handle: Handle, measurement: Measurement)
    | Finished(vmFd: Fd, sevFd: Fd)

  /** The guest handle; launchers in the started and measured tables always have one
      (see `Lifecycle.TablesAreTyped`). */
  function HandleOf(l: Launcher): Handle {
    match l
    case Started(_, _, h) => h
    case Measured(_, _, h, _) => h
    case _ => 0
  }

  /** The four mutex-protected tables, in the order in which locks are nested. */
  datatype Stage = InitMap | StartedMap | MeasuredMap | FinishedMap {
    function Rank(): nat {
      match this
      case InitMap => 0
      case StartedMap => 1
      case MeasuredMap => 2
      case FinishedMap => 3
    }
  }

  datatype Maps = Maps(
    init: map<Fd, Launcher>,
    started: map<Fd, Launcher>,
    measured: map<Fd, Launcher>,
    finished: map<Fd, Launcher>)
  {
    function Get(st: Stage): map<Fd, Launcher> {
      match st
      case InitMap => init
      case StartedMap => started
      case MeasuredMap => measured
      case FinishedMap => finished
    }

    function Put(st: Stage, m: map<Fd, Launcher>): Maps {
      match st
      case InitMap => this.(init := m)
      case StartedMap => this.(started := m)
      case MeasuredMap => this.(measured := m)
      case FinishedMap => this.(finished := m)
    }
  }

  const EMPTY := Maps(map[], map[], map[], map[])

  /** A call of the C API together with the outcomes its ioctls would have. */
  datatype Call =
    | SevInit(fd: Fd, sevFd: Fd, es: bool, initIo: Outcome<()>)
    | LaunchStart(fd: Fd, startIo: Outcome<Handle>)
    | UpdateData(fd: Fd, regionIo: Outcome<()>, dataIo: Outcome<()>)
    | UpdateVmsa(fd: Fd, vmsaIo: Outcome<()>)
    | LaunchMeasure(fd: Fd, measureIo: Outcome<Measurement>)
    | InjectSecret(fd: Fd, secretIo: Outcome<()>)
    | LaunchFinish(fd: Fd, finishIo: Outcome<()>)
    | AttestationReport(fd: Fd, nonceLen: nat, probeIo: Probe, reportIo: Outcome<()>)

  /** What a call gives back: its code, the firmware error it stores and the
      measurement it copies out. */
  datatype Ret = Ret(code: int, fwErr: Option<int>, measurement: Option<Measurement>)

  const SUCCESS := Ret(0, None, None)
  const REFUSED := Ret(-1, None, None)

  function FwFailed(code: int): Ret {
    Ret(-1, Some(code), None)
  }

  function Plain(io: Outcome<()>): Ret {
    if io.Ok? then SUCCESS else FwFailed(io.code)
  }

  /** The effect of one call run alone. */
  function Serial(m: Maps, c: Call): (Maps, Ret) {
    match c
    case SevInit(fd, sevFd, _, io) =>
      if io.Ok? then (m.(init := m.init[fd := New(fd, sevFd)]), SUCCESS) else (m, FwFailed(io.code))
    case LaunchStart(fd, io) =>
      if fd !in m.init then (m, REFUSED) else
      var l := m.init[fd];
      var m' := m.(init := m.init - {fd});
      if io.Err? then (m', FwFailed(io.code)) else
      (m'.(started := m'.started[fd := Started(l.vmFd, l.sevFd, io.value)]),
       if fd in m'.started then REFUSED else SUCCESS)
    case UpdateData(fd, region, io) =>
      if fd !in m.started then (m, REFUSED) else
      (m, if region.Err? then FwFailed(region.code) else Plain(io))
    case UpdateVmsa(fd, io) =>
      if fd !in m.started then (m, REFUSED) else (m, Plain(io))
    case LaunchMeasure(fd, io) =>
      if fd !in m.started then (m, REFUSED) else
      var l := m.started[fd];
      var m' := m.(started := m.started - {fd});
      if io.Err? then (m', FwFailed(io.code)) else
      (m'.(measured := m'.measured[fd := Measured(l.vmFd, l.sevFd, HandleOf(l), io.value)]),
       Ret(0, None, Some(io.value)))
    case InjectSecret(fd, io) =>
      if fd !in m.measured then (m, REFUSED) else (m, Plain(io))
    case LaunchFinish(fd, io) =>
      if fd !in m.measured then (m, REFUSED) else
      var l := m.measured[fd];
      var m' := m.(measured := m.measured - {fd});
      if io.Err? then (m', FwFailed(io.code)) else
      (m'.(finished := m'.finished[fd := Finished(l.vmFd, l.sevFd)]), SUCCESS)
    case AttestationReport(fd, nonceLen, probe, io) =>
      if fd !in m.finished || nonceLen != 16 then (m, REFUSED) else
      (m, if probe.ProbeErr? then FwFailed(probe.code)
          else if io.Err? then FwFailed(io.code) else REFUSED)
  }

  // ---------- what a caller sees ----------

  /** The launcher a call looks up is there; initialising needs none. */
  predicate Found(m: Maps, c: Call) {
    match c
    case SevInit(_, _, _, _) => true
    case LaunchStart(fd, _) => fd in m.init
    case UpdateData(fd, _, _) => fd in m.started
    case UpdateVmsa(fd, _) => fd in m.started
    case LaunchMeasure(fd, _) => fd in m.started
    case InjectSecret(fd, _) => fd in m.measured
    case LaunchFinish(fd, _) => fd in m.measured
    case AttestationReport(fd, nonceLen, _, _) => fd in m.finished && nonceLen == 16
  }

  /** The code of the first of a call's ioctls that fails. */
  function FirstFailure(c: Call): Option<int> {
    match c
    case SevInit(_, _, _, Err(e)) => Some(e)
    case LaunchStart(_, Err(e)) => Some(e)
    case UpdateData(_, Err(e), _) => Some(e)
    case UpdateData(_, Ok(_), Err(e)) => Some(e)
    case UpdateVmsa(_, Err(e)) => Some(e)
    case LaunchMeasure(_, Err(e)) => Some(e)
    case InjectSecret(_, Err(e)) => Some(e)
    case LaunchFinish(_, Err(e)) => Some(e)
    case AttestationReport(_, _, ProbeErr(e), _) => Some(e)
    case AttestationReport(_, _, _, Err(e)) => Some(e)
    case _ => None
  }

  /** What every call answers: 0 exactly when it did what it is for and -1 otherwise, the
      firmware error exactly when an ioctl it reached failed, and a measurement exactly when it
      measured. */
  lemma Answers(m: Maps, c: Call)
    ensures var r := Serial(m, c).1;
            && (r.code == 0 || r.code == -1)
            && (r.code == 0 <==>
                  && Found(m, c) && FirstFailure(c).None? && !c.AttestationReport?
                  && (c.LaunchStart? ==> c.fd !in m.started))
            && (forall e :: r.fwErr == Some(e) <==> Found(m, c) && FirstFailure(c) == Some(e))
            && (forall v :: r.measurement == Some(v) <==> Found(m, c) && c.LaunchMeasure? && c.measureIo == Ok(v))
  {
  }

  /** What every call does to the tables: a launcher moves to the next table, keeping its
      descriptors and handle, is lost, or stays; launchers of other VMs are untouched. */
  lemma Effects(m: Maps, c: Call)
    ensures var n := Serial(m, c).0;
            && (forall st, fd :: fd != c.fd ==> SameAt(m.Get(st), n.Get(st), fd))
            && (c.SevInit? && c.initIo.Ok? ==>
                  n == m.(init := n.init) && c.fd in n.init && n.init[c.fd] == New(c.fd, c.sevFd))
            && (c.LaunchStart? && Found(m, c) ==>
                  && n == m.(init := n.init, started := n.started) && c.fd !in n.init
                  && if c.startIo.Err? then n.started == m.started else
                     && c.fd in n.started
                     && n.started[c.fd] == Started(m.init[c.fd].vmFd, m.init[c.fd].sevFd, c.startIo.value))
            && (c.LaunchMeasure? && Found(m, c) ==>
                  && n == m.(started := n.started, measured := n.measured) && c.fd !in n.started
                  && if c.measureIo.Err? then n.measured == m.measured else
                     && var l := m.started[c.fd];
                     && c.fd in n.measured
                     && n.measured[c.fd] == Measured(l.vmFd, l.sevFd, HandleOf(l), c.measureIo.value))
            && (c.LaunchFinish? && Found(m, c) ==>
                  && n == m.(measured := n.measured, finished := n.finished) && c.fd !in n.measured
                  && if c.finishIo.Err? then n.finished == m.finished else
                     && c.fd in n.finished
                     && n.finished[c.fd] == Finished(m.measured[c.fd].vmFd, m.measured[c.fd].sevFd))
            && ((!Found(m, c) || c.UpdateData? || c.UpdateVmsa? || c.InjectSecret? || c.AttestationReport?
                 || (c.SevInit? && c.initIo.Err?)) ==> n == m)
  {
  }

  /** A table says the same about a VM. */
  predicate SameAt(m: map<Fd, Launcher>, n: map<Fd, Launcher>, fd: Fd) {
    (fd in m <==> fd in n) && (fd in m ==> m[fd] == n[fd])
  }

  /** The tables as the library keeps them, changed in place by each call.  */
  class Registry {
    var init: map<Fd, Launcher>
    var started: map<Fd, Launcher>
    var measured: map<Fd, Launcher>
    var finished: map<Fd, Launcher>

    function View(): Maps
      reads this
    {
      Maps(init, started, measured, finished)
    }

    constructor ()
      ensures View() == EMPTY
    {
      init, started, measured, finished := map[], map[], map[], map[];
    }

    /** `sev_init` and `sev_es_init`, which differ only in the ioctl. */
    method Init(fd: Fd, sevFd: Fd, es: bool, io: Outcome<()>) returns (r: Ret)
      modifies this`init
      ensures (View(), r) == old(Serial(View(), SevInit(fd, sevFd, es, io)))
    {
      match io
      case Ok(_) =>
        init := init[fd := New(fd, sevFd)];
        r := SUCCESS;
      case Err(code) =>
        r := FwFailed(code);
    }

    method Start(fd: Fd, io: Outcome<Handle>) returns (r: Ret)
      modifies this`init, this`started
      ensures (View(), r) == old(Serial(View(), LaunchStart(fd, io)))
    {
      if fd !in init { return REFUSED; }
      var launcher := init[fd];
      init := init - {fd};
      match io
      case Ok(handle) =>
        var replaced := fd in started;
        started := started[fd := Started(launcher.vmFd, launcher.sevFd, handle)];
        r := if replaced then REFUSED else SUCCESS;
      case Err(code) =>
        r := FwFailed(code);
    }

    method Update(fd: Fd, region: Outcome<()>, io: Outcome<()>) returns (r: Ret)
      ensures (View(), r) == Serial(View(), UpdateData(fd, region, io))
    {
      if fd !in started { return REFUSED; }
      if region.Err? { return FwFailed(region.code); }
      if io.Err? { return FwFailed(io.code); }
      r := SUCCESS;
    }

    method Vmsa(fd: Fd, io: Outcome<()>) returns (r: Ret)
      ensures (View(), r) == Serial(View(), UpdateVmsa(fd, io))
    {
      if fd !in started { return REFUSED; }
      if io.Err? { return FwFailed(io.code); }
      r := SUCCESS;
    }

    method Measure(fd: Fd, io: Outcome<Measurement>) returns (r: Ret)
      modifies this`started, this`measured
      ensures (View(), r) == old(Serial(View(), LaunchMeasure(fd, io)))
    {
      if fd !in started { return REFUSED; }
      var launcher := started[fd];
      started := started - {fd};
      match io
      case Ok(msr) =>
        measured := measured[fd := Measured(launcher.vmFd, launcher.sevFd, HandleOf(launcher), msr)];
        r := Ret(0, None, Some(msr));
      case Err(code) =>
        r := FwFailed(code);
    }

    method Inject(fd: Fd, io: Outcome<()>) returns (r: Ret)
      ensures (View(), r) == Serial(View(), InjectSecret(fd, io))
    {
      if fd !in measured { return REFUSED; }
      if io.Err? { return FwFailed(io.code); }
      r := SUCCESS;
    }

    method Finish(fd: Fd, io: Outcome<()>) returns (r: Ret)
      modifies this`measured, this`finished
      ensures (View(), r) == old(Serial(View(), LaunchFinish(fd, io)))
    {
      if fd !in measured { return REFUSED; }
      var launcher := measured[fd];
      measured := measured - {fd};
      match io
      case Ok(_) =>
        finished := finished[fd := Finished(launcher.vmFd, launcher.sevFd)];
        r := SUCCESS;
      case Err(code) =>
        r := FwFailed(code);
    }

    /** `sev_attestation_report`, whose code is -1 whatever the outcome. */
    method Report(fd: Fd, nonceLen: nat, probe: Probe, io: Outcome<()>) returns (r: Ret)
      ensures (View(), r) == Serial(View(), AttestationReport(fd, nonceLen, probe, io))
    {
      if fd !in finished { return REFUSED; }
      if nonceLen != 16 { return REFUSED; }
      if probe.ProbeErr? { return FwFailed(probe.code); }
      if io.Err? { return FwFailed(io.code); }
      r := REFUSED;
    }
  }
}
