/** The sequential registry against the concurrent machine: performing calls one after another
    on a registry object is what the machine's runs are serializable to. */
module Conformance {
  import opened LaunchRegistry
  import opened Outcomes
  import opened LaunchMachine
  import opened Serializability

  /** One call of the C API on the tables. */
  method Perform(registry: Registry, c: Call) returns (r: Ret)
    modifies registry
    ensures (registry.View(), r) == Serial(old(registry.View()), c)
  {
    match c
    case SevInit(fd, sevFd, es, io) => r := registry.Init(fd, sevFd, es, io);
    case LaunchStart(fd, io) => r := registry.Start(fd, io);
    case UpdateData(fd, region, io) => r := registry.Update(fd, region, io);
    case UpdateVmsa(fd, io) => r := registry.Vmsa(fd, io);
    case LaunchMeasure(fd, io) => r := registry.Measure(fd, io);
    case InjectSecret(fd, io) => r := registry.Inject(fd, io);
    case LaunchFinish(fd, io) => r := registry.Finish(fd, io);
    case AttestationReport(fd, nonceLen, probe, io) => r := registry.Report(fd, nonceLen, probe, io);
  }

  /** Calls performed one after another give the tables and results of their replay. */
  method PerformAll(registry: Registry, calls: seq<Call>) returns (rets: seq<Ret>)
    modifies registry
    ensures (registry.View(), rets) == Replay(old(registry.View()), calls)
  {
    rets := [];
    for i := 0 to |calls|
      invariant (registry.View(), rets) == Replay(old(registry.View()), calls[..i])
    {
      ReplaySnoc(old(registry.View()), calls[..i], calls[i]);
      assert calls[..i] + [calls[i]] == calls[..i + 1];
      var r := Perform(registry, calls[i]);
      rets := rets + [r];
    }
    assert calls[..|calls|] == calls;
  }

  /** Any finished concurrent run, re-enacted sequentially: performing its calls on a registry,
      in the order in which their results were fixed, returns to every call what the run
      returned to it and leaves the tables the run left. */
  method Reenact(registry: Registry, calls: seq<Call>, ghost run: seq<Label>) returns (rets: seq<Ret>)
    requires IsRun(Initial(registry.View()), run) && AllReturned(After(Initial(registry.View()), run))
    requires var s, order := After(Initial(registry.View()), run), Order(Initial(registry.View()), run);
             Lists(s, order) && calls == CallsOf(s, order)
    modifies registry
    ensures var s, order := After(Initial(old(registry.View())), run), Order(Initial(old(registry.View())), run);
            Lists(s, order) && registry.View() == s.maps && rets == RetsOf(s, order)
  {
    ghost var order := Serializable(registry.View(), run);
    rets := PerformAll(registry, calls);
  }
}
