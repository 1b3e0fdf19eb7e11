/** Which ioctls the firmware is sent by which calls, over whole concurrent runs. */
module CallLog {
  import opened LaunchRegistry
  import opened Outcomes
  import opened LaunchMachine
  import opened Serializability

  /** The ioctls a call has to issue to be done, with their outcomes. */
  function Needed(c: Call): seq<Ioctl> {
    match c
    case SevInit(fd, _, _, io) => [Ioctl(fd, INIT, io.Ok?)]
    case LaunchStart(fd, io) => [Ioctl(fd, START, io.Ok?)]
    case UpdateData(fd, Ok(_), io) => [Ioctl(fd, UPDATE, io.Ok?)]
    case UpdateData(_, Err(_), _) => []
    case UpdateVmsa(fd, io) => [Ioctl(fd, UPDATE, io.Ok?)]
    case LaunchMeasure(fd, io) => [Ioctl(fd, MEASURE, io.Ok?)]
    case InjectSecret(fd, io) => [Ioctl(fd, SECRET, io.Ok?)]
    case LaunchFinish(fd, io) => [Ioctl(fd, FINISH, io.Ok?)]
    case AttestationReport(fd, 16, ProbeErr(_), _) => [Ioctl(fd, REPORT, false)]
    case AttestationReport(fd, 16, ProbeOk, io) => [Ioctl(fd, REPORT, true), Ioctl(fd, REPORT, io.Ok?)]
    case AttestationReport(fd, 16, ProbeInvalidLen, io) => [Ioctl(fd, REPORT, false), Ioctl(fd, REPORT, io.Ok?)]
    case AttestationReport(_, _, _, _) => []
  }

  /** The step in which a call turns to the firmware: at once to initialise, and otherwise when
      it has found the launcher. */
  predicate Turns(a: Activity) {
    if a.call.SevInit? then a.pc == Ready else a.pc == Borrowed || a.pc.Taken?
  }

  /** A call issues all of its ioctls in one step, in order, and nothing in any other. */
  lemma Issues(s: State, t: Tid)
    requires Inv(s) && Enabled(s, Step(t))
    ensures var a := s.acts[t];
            Next(s, Step(t)).log == s.log + if Turns(a) then Needed(a.call) else []
  {
    assert Fits(s, s.acts[t]);
  }

  /** Calls that are known to have issued their ioctls: they are past that step, and in the end
      they report success or a firmware error. */
  predicate Past(a: Activity) {
    match a.pc
    case Ready => false
    case Issued => true
    case Holding => a.call.SevInit?
    case Borrowed => false
    case Taken(_) => false
    case Advanced(_, _) => true
    case Nested(_, _) => true
    case Unnesting(_) => true
    case Leaving(ret) => ret.code == 0 || ret.fwErr.Some?
    case Returned(ret) => ret.code == 0 || ret.fwErr.Some?
  }

  ghost predicate Attributed(s: State, e: Ioctl) {
    exists t :: t in s.acts && e in Needed(s.acts[t].call)
  }

  /** The firmware has been sent nothing that no call accounts for, and everything that the
      calls say they sent. */
  ghost predicate Accounted(s: State) {
    && (forall e :: e in s.log ==> Attributed(s, e))
    && (forall t, e :: t in s.acts && Past(s.acts[t]) && e in Needed(s.acts[t].call) ==> e in s.log)
  }

  lemma AccountedInvoke(s: State, t: Tid, c: Call)
    requires Accounted(s) && t !in s.acts
    ensures Accounted(Next(s, Invoke(t, c)))
  {
    var s' := Next(s, Invoke(t, c));
    forall e | e in s'.log ensures Attributed(s', e) {
      var u :| u in s.acts && e in Needed(s.acts[u].call);
      assert u in s'.acts && s'.acts[u] == s.acts[u];
    }
  }

  lemma AccountedStep(s: State, t: Tid)
    requires Inv(s) && Accounted(s) && Enabled(s, Step(t))
    ensures Accounted(Next(s, Step(t)))
  {
    var s' := Next(s, Step(t));
    Issues(s, t);
    forall e | e in s'.log ensures Attributed(s', e) {
      if e in s.log {
        var u :| u in s.acts && e in Needed(s.acts[u].call);
        assert s'.acts[u].call == s.acts[u].call;
      } else {
        assert s'.acts[t].call == s.acts[t].call;
      }
    }
    forall u, e | u in s'.acts && Past(s'.acts[u]) && e in Needed(s'.acts[u].call) ensures e in s'.log {
      if u == t { PastStep(s, t); }
    }
  }

  lemma PastStep(s: State, t: Tid)
    requires Inv(s) && Enabled(s, Step(t)) && Past(Next(s, Step(t)).acts[t])
    ensures Past(s.acts[t]) || Turns(s.acts[t])
  {
    assert Fits(s, s.acts[t]);
  }

  /** In every reachable state the firmware's view and the calls' answers agree: a success or a
      firmware error reported to a caller was received, and nothing else was. */
  lemma {:induction false} AlwaysAccounted(m: Maps, run: seq<Label>)
    requires IsRun(Initial(m), run)
    ensures Accounted(After(Initial(m), run))
    decreases |run|
  {
    if run != [] {
      var front, l := run[..|run|-1], run[|run|-1];
      AlwaysAccounted(m, front);
      InvAlways(m, front);
      match l
      case Invoke(t, c) => AccountedInvoke(After(Initial(m), front), t, c);
      case Step(t) => AccountedStep(After(Initial(m), front), t);
    }
  }
}
