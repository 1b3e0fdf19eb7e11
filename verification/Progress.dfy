/** Locks are nested in table order, so calls never deadlock, and every call finishes
    within eight steps of its own. */
module Progress {
  import opened LaunchRegistry
  import opened Outcomes
  import opened LaunchMachine
  import opened Serializability

  /** A call that waits while holding a lock waits for a later table. */
  lemma NestedUpwards(s: State, a: Activity, st: Stage)
    requires Fits(s, a) && Owns(a, st) && Wants(a).Some?
    ensures Wants(a).value.Rank() > st.Rank()
  {
  }

  /** Following the chain of lock owners from a blocked call reaches one that can step. */
  lemma Unblocked(s: State, t: Tid) returns (u: Tid)
    requires Inv(s) && t in s.acts && !s.acts[t].pc.Returned?
    ensures Enabled(s, Step(u))
    decreases if Wants(s.acts[t]).Some? then 4 - Wants(s.acts[t]).value.Rank() else 0
  {
    if Enabled(s, Step(t)) { return t; }
    var st := Wants(s.acts[t]).value;
    var owner := s.held[st];
    assert Owns(s.acts[owner], st) && Fits(s, s.acts[owner]);
    if Enabled(s, Step(owner)) { return owner; }
    NestedUpwards(s, s.acts[owner], st);
    u := Unblocked(s, owner);
  }

  /** Deadlock freedom: in every reachable state with an unfinished call, some call can step. */
  lemma DeadlockFree(m: Maps, run: seq<Label>, t: Tid) returns (u: Tid)
    requires IsRun(Initial(m), run)
    requires t in After(Initial(m), run).acts && !After(Initial(m), run).acts[t].pc.Returned?
    ensures Enabled(After(Initial(m), run), Step(u))
  {
    InvAlways(m, run);
    u := Unblocked(After(Initial(m), run), t);
  }

  /** How far a call has come. */
  function Distance(pc: Pc): nat {
    match pc
    case Ready => 0
    case Issued => 1
    case Holding => 2
    case Borrowed => 3
    case Taken(_) => 3
    case Advanced(_, _) => 4
    case Nested(_, _) => 5
    case Unnesting(_) => 6
    case Leaving(_) => 7
    case Returned(_) => 8
  }

  function StepsBy(run: seq<Label>, t: Tid): nat
    decreases |run|
  {
    if run == [] then 0
    else StepsBy(run[..|run|-1], t) + (if run[|run|-1] == Step(t) then 1 else 0)
  }

  /** Every step brings its call closer to its return, whatever the others do. */
  lemma {:induction false} StepsWithin(m: Maps, run: seq<Label>, t: Tid)
    requires IsRun(Initial(m), run)
    ensures var s := After(Initial(m), run);
            if t in s.acts then StepsBy(run, t) <= Distance(s.acts[t].pc) else StepsBy(run, t) == 0
    decreases |run|
  {
    if run != [] {
      StepsWithin(m, run[..|run|-1], t);
      var s, l := After(Initial(m), run[..|run|-1]), run[|run|-1];
      if l == Step(t) {
        assert Distance(NextPc(s.maps, s.acts[t])) > Distance(s.acts[t].pc);
      }
    }
  }

  /** When no call can step any more, all have returned, so the run is serializable. */
  lemma Quiescence(m: Maps, run: seq<Label>)
    requires IsRun(Initial(m), run)
    requires forall u :: !Enabled(After(Initial(m), run), Step(u))
    ensures AllReturned(After(Initial(m), run))
  {
    var s := After(Initial(m), run);
    forall t | t in s.acts ensures s.acts[t].pc.Returned? {
      if !s.acts[t].pc.Returned? {
        var u := DeadlockFree(m, run, t);
      }
    }
  }

  // ---------- every serial execution is a run ----------

  /** `run` leads from the tables `m` to state `s`, fixing results in the order `order`. */
  ghost predicate Reaches(m: Maps, run: seq<Label>, s: State, order: seq<Tid>) {
    IsRun(Initial(m), run) && After(Initial(m), run) == s && Order(Initial(m), run) == order
  }

  lemma Extend(m: Maps, run: seq<Label>, s: State, order: seq<Tid>, l: Label)
    requires Reaches(m, run, s, order) && Enabled(s, l)
    ensures Reaches(m, run + [l], Next(s, l), order + Fixes(s, l))
  {
    assert (run + [l])[..|run + [l]|-1] == run;
  }

  ghost predicate OthersReturned(s: State, t: Tid) {
    forall u :: u in s.acts && u != t ==> s.acts[u].pc.Returned?
  }

  ghost predicate KeepsCalls(s: State, s': State) {
    forall t :: t in s.acts ==> t in s'.acts && s'.acts[t].call == s.acts[t].call
  }

  /** A call that runs alone can step until it returns. */
  lemma SoloStep(s: State, t: Tid)
    requires Inv(s) && t in s.acts && OthersReturned(s, t) && !s.acts[t].pc.Returned?
    ensures Enabled(s, Step(t)) && Distance(NextPc(s.maps, s.acts[t])) > Distance(s.acts[t].pc)
    ensures OthersReturned(Next(s, Step(t)), t) && KeepsCalls(s, Next(s, Step(t)))
  {
    var u := Unblocked(s, t);
  }

  lemma RunToEnd(m: Maps, run: seq<Label>, s: State, order: seq<Tid>, t: Tid)
      returns (run': seq<Label>, s': State, order': seq<Tid>)
    requires Reaches(m, run, s, order) && t in s.acts && OthersReturned(s, t)
    ensures Reaches(m, run', s', order') && AllReturned(s') && KeepsCalls(s, s')
    ensures order' == order + (if s.acts[t].pc.Decided() then [] else [t])
    decreases 8 - Distance(s.acts[t].pc)
  {
    InvAlways(m, run);
    if s.acts[t].pc.Returned? {
      run', s', order' := run, s, order;
    } else {
      SoloStep(s, t);
      Extend(m, run, s, order, Step(t));
      run', s', order' := RunToEnd(m, run + [Step(t)], Next(s, Step(t)), order + Fixes(s, Step(t)), t);
    }
  }

  lemma AppendCall(s: State, order: seq<Tid>, s': State, t: Tid)
    requires Lists(s, order) && KeepsCalls(s, s') && Lists(s', order + [t])
    ensures CallsOf(s', order + [t]) == CallsOf(s, order) + [s'.acts[(order + [t])[|order|]].call]
  {
    var order' := order + [t];
    forall i | 0 <= i < |order| ensures order'[i] in s.acts && s'.acts[order'[i]].call == s.acts[order[i]].call {
      assert order[i] in order;
    }
  }

  /** From a state with no call in progress, one more call runs to its end. */
  lemma RunOne(m: Maps, run: seq<Label>, s: State, order: seq<Tid>, c: Call)
      returns (run': seq<Label>, s': State, t: Tid)
    requires Reaches(m, run, s, order) && AllReturned(s)
    ensures Reaches(m, run', s', order + [t]) && AllReturned(s') && KeepsCalls(s, s')
    ensures t in s'.acts && s'.acts[t].call == c
  {
    t := Above(s.acts.Keys);
    var l := Invoke(t, c);
    Extend(m, run, s, order, l);
    assert order + [] == order;
    var order';
    run', s', order' := RunToEnd(m, run + [l], Next(s, l), order, t);
  }

  lemma Settled(m: Maps, run: seq<Label>, s: State, order: seq<Tid>)
    requires Reaches(m, run, s, order) && AllReturned(s)
    ensures Lists(s, order) && (s.maps, RetsOf(s, order)) == Replay(m, CallsOf(s, order))
  {
    var _ := Serializable(m, run);
  }

  /** From a state with no call in progress, running one more call lists it last. */
  lemma AchieveOne(m: Maps, run: seq<Label>, s: State, order: seq<Tid>, c: Call)
      returns (run': seq<Label>, s': State, order': seq<Tid>)
    requires Reaches(m, run, s, order) && AllReturned(s) && Lists(s, order)
    ensures Reaches(m, run', s', order') && AllReturned(s') && Lists(s', order')
    ensures CallsOf(s', order') == CallsOf(s, order) + [c]
  {
    var t;
    run', s', t := RunOne(m, run, s, order, c);
    order' := order + [t];
    Settled(m, run', s', order');
    AppendCall(s, order, s', t);
  }

  /** The converse of serializability: whatever calls are run one after another, some run of
      the concurrent machine has exactly their results and leaves exactly those tables. */
  lemma Achievable(m: Maps, calls: seq<Call>) returns (run: seq<Label>, s: State, order: seq<Tid>)
    ensures Reaches(m, run, s, order) && AllReturned(s)
    ensures Lists(s, order) && CallsOf(s, order) == calls
    ensures (s.maps, RetsOf(s, order)) == Replay(m, calls)
  {
    run, s, order := Reached(m, calls);
    Settled(m, run, s, order);
  }

  lemma Reached(m: Maps, calls: seq<Call>) returns (run: seq<Label>, s: State, order: seq<Tid>)
    ensures Reaches(m, run, s, order) && AllReturned(s)
    ensures Lists(s, order) && CallsOf(s, order) == calls
    decreases |calls|
  {
    if calls == [] {
      run, s, order := [], Initial(m), [];
      ExplainInitial(m);
      assert CallsOf(s, []) == [];
    } else {
      var front, c := calls[..|calls|-1], calls[|calls|-1];
      var run1, s1, order1 := Reached(m, front);
      run, s, order := AchieveOne(m, run1, s1, order1, c);
      assert calls == front + [c];
    }
  }

  lemma Above(used: set<Tid>) returns (t: Tid)
    ensures forall u :: u in used ==> u < t
  {
    if used == {} { return 0; }
    var top :| top in used;
    var t' := Above(used - {top});
    t := if top < t' then t' else top + 1;
    assert forall u :: u in used ==> u == top || u in used - {top};
  }
}
