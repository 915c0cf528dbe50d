/**
 One dynamic port with its map operations taken one at a time (netlisten.go): the port monitor looks for
 an entry, then sets the two maps; the goroutine of each sniffer that returned looks the port up, then
 deletes from the two maps. Module Registry takes each of these as one step; here they interleave, the
 cleanups of several sniffers of the port with each other too.
 */
module RegistryRace {
  import opened Wrappers

  /** The monitor found the port absent, or has set listenPorts but not portHandleMap yet. */
  datatype MonitorPc = Watching | FoundAbsent | HalfRegistered

  /** A sniffer is running, or returned and its cleanup is about to look the port up, has found it, has
      deleted it from portHandleMap, or is over. */
  datatype SnifferPc = Running | Starting | Found | HalfDeleted | Gone {
    predicate Cleaning() { Starting? || Found? || HalfDeleted? }

    /** Its cleanup no longer touches portHandleMap. */
    predicate Past() { HalfDeleted? || Gone? }
  }

  /** listed and handled are the registrations the two maps hold, by number; the sniffer of registration i
      is sniffers[i], so a registration that is half done has the number after the last. */
  datatype State = State(
    listed: Option<nat>,
    handled: Option<nat>,
    monitor: MonitorPc,
    sniffers: seq<SnifferPc>)
  {
    predicate At(id: nat, pc: SnifferPc) { id < |sniffers| && sniffers[id] == pc }

    function Set(id: nat, pc: SnifferPc): State
      requires id < |sniffers|
    {
      this.(sniffers := sniffers[id := pc])
    }
  }

  datatype Event =
    | Look | SetListen(ok: bool) | SetHandle
    | SnifferReturns(id: nat) | Get(id: nat) | DelHandle(id: nat) | DelListen(id: nat)

  /** Right after the first registration. */
  const REGISTERED := State(Some(0), Some(0), Watching, [Running])

  function Step(s: State, e: Event): State {
    match e
    case Look => if s.monitor.Watching? && s.handled.None? then s.(monitor := FoundAbsent) else s
    case SetListen(ok) =>
      if !s.monitor.FoundAbsent? then s
      else if !ok then s.(monitor := Watching)
      else s.(listed := Some(|s.sniffers|), monitor := HalfRegistered)
    case SetHandle =>
      if !s.monitor.HalfRegistered? then s
      else s.(handled := Some(|s.sniffers|), sniffers := s.sniffers + [Running], monitor := Watching)
    case SnifferReturns(id) => if s.At(id, Running) then s.Set(id, Starting) else s
    case Get(id) => if s.At(id, Starting) then s.Set(id, if s.listed.Some? then Found else Gone) else s
    case DelHandle(id) => if s.At(id, Found) then s.Set(id, HalfDeleted).(handled := None) else s
    case DelListen(id) => if s.At(id, HalfDeleted) then s.Set(id, Gone).(listed := None) else s
  }

  function Run(s: State, es: seq<Event>): State
    decreases |es|
  {
    if es == [] then s else Run(Step(s, es[0]), es[1..])
  }

  /** The monitor registers the port while a cleanup is between its two deletions. */
  predicate Overtakes(s: State, e: Event) {
    && e.SetListen? && e.ok && s.monitor.FoundAbsent?
    && exists i | 0 <= i < |s.sniffers| :: s.sniffers[i].HalfDeleted?
  }

  predicate Overtaken(s: State, es: seq<Event>)
    decreases |es|
  {
    es != [] && (Overtakes(s, es[0]) || Overtaken(Step(s, es[0]), es[1..]))
  }

  /** The sniffer of this registration has not looked the port up for its own cleanup. */
  predicate BeforeLookup(s: State, id: nat) {
    id >= |s.sniffers| || s.sniffers[id].Running? || s.sniffers[id].Starting?
  }

  /** A cleanup deletes the listing of a later registration whose own cleanup has not looked it up. */
  predicate Orphans(s: State, e: Event) {
    && e.DelListen? && s.At(e.id, HalfDeleted)
    && s.listed.Some? && s.listed.value != e.id && BeforeLookup(s, s.listed.value)
  }

  predicate Orphaned(s: State, es: seq<Event>)
    decreases |es|
  {
    es != [] && (Orphans(s, es[0]) || Orphaned(Step(s, es[0]), es[1..]))
  }

  /** All sniffers but the last n are past touching portHandleMap. */
  ghost predicate OthersPast(s: State, n: nat) {
    |s.sniffers| > 0 && forall i | 0 <= i < |s.sniffers| - n :: s.sniffers[i].Past()
  }

  function Last(s: State): nat
    requires |s.sniffers| > 0
  {
    |s.sniffers| - 1
  }

  /** As long as no registration was orphaned. */
  ghost predicate Orderly(s: State) {
    && OthersPast(s, 1)
    && match s.monitor
       case HalfRegistered => OthersPast(s, 0) && s.listed == Some(|s.sniffers|) && s.handled == None
       case FoundAbsent => OthersPast(s, 0) && OrderlyLast(s)
       case Watching => OrderlyLast(s)
  }

  /** What the maps hold is told by how far the last sniffer is. */
  predicate OrderlyLast(s: State)
    requires |s.sniffers| > 0
  {
    match s.sniffers[Last(s)]
    case Running => s.listed == s.handled == Some(Last(s))
    case Starting => s.listed == s.handled == Some(Last(s))
    case Found => s.handled == Some(Last(s)) && (s.listed == None || s.listed == Some(Last(s)))
    case HalfDeleted => s.handled == None && (s.listed == None || s.listed == Some(Last(s)))
    case Gone => s.listed == s.handled == None
  }

  /** After one was. */
  ghost predicate Lost(s: State) {
    && OthersPast(s, 1)
    && s.listed == None
    && match s.monitor
       case HalfRegistered => OthersPast(s, 0) && s.handled == None
       case FoundAbsent => false
       case Watching =>
         && s.handled == Some(Last(s))
         && (s.sniffers[Last(s)].Running? || s.sniffers[Last(s)].Starting? || s.sniffers[Last(s)].Gone?)
  }

  lemma OrderlyStep(s: State, e: Event)
    requires Orderly(s)
    ensures if Orphans(s, e) then Lost(Step(s, e)) else Orderly(Step(s, e))
  {
  }

  lemma LostStep(s: State, e: Event)
    requires Lost(s)
    ensures Lost(Step(s, e))
  {
  }

  lemma {:induction false} LostRun(s: State, es: seq<Event>)
    requires Lost(s)
    ensures Lost(Run(s, es))
    decreases |es|
  {
    if es != [] {
      LostStep(s, es[0]);
      LostRun(Step(s, es[0]), es[1..]);
    }
  }

  lemma {:induction false} OrderlyRun(s: State, es: seq<Event>)
    requires Orderly(s)
    ensures if Orphaned(s, es) then Lost(Run(s, es)) else Orderly(Run(s, es))
    decreases |es|
  {
    if es != [] {
      OrderlyStep(s, es[0]);
      if Orphans(s, es[0]) {
        LostRun(Step(s, es[0]), es[1..]);
      } else {
        OrderlyRun(Step(s, es[0]), es[1..]);
      }
    }
  }

  /** Neither the monitor nor any cleanup is at work. */
  ghost predicate Quiet(s: State) {
    s.monitor.Watching? && forall i | 0 <= i < |s.sniffers| :: !s.sniffers[i].Cleaning()
  }

  /** In every interleaving, whenever everything is at rest, the maps agree exactly when no registration was
      ever orphaned: no cleanup deleted the listing of a later registration before that one's own cleanup
      looked it up. Then the port is registered exactly while its last sniffer runs. */
  lemma AgreementUnlessOrphaned(es: seq<Event>)
    ensures var s := Run(REGISTERED, es);
            Quiet(s) ==>
              && (s.listed == s.handled <==> !Orphaned(REGISTERED, es))
              && (s.listed == s.handled ==>
                    && |s.sniffers| > 0
                    && s.listed == if s.sniffers[Last(s)].Running? then Some(Last(s)) else None)
  {
    OrderlyRun(REGISTERED, es);
  }

  /** If one was, the port is lost for good: whatever happens later, whenever everything is at rest the port
      has a handle on record but is not listened on, and the monitor sees nothing to do. */
  lemma OrphanedIsForever(es: seq<Event>, more: seq<Event>)
    requires Orphaned(REGISTERED, es)
    ensures var t := Run(Run(REGISTERED, es), more);
            Quiet(t) ==> t.listed == None && t.handled.Some? && Step(t, Look) == t
  {
    OrderlyRun(REGISTERED, es);
    LostRun(Run(REGISTERED, es), more);
  }

  // Overtaking

  /** As long as no registration fell between two deletions: the sniffers before the last are gone. */
  ghost predicate Tidy(s: State) {
    && Orderly(s)
    && (forall i | 0 <= i < |s.sniffers| - 1 :: s.sniffers[i].Gone?)
    && (s.monitor.HalfRegistered? ==> s.sniffers[Last(s)].Gone?)
  }

  lemma TidyStep(s: State, e: Event)
    requires Tidy(s) && !Overtakes(s, e)
    ensures !Orphans(s, e) && Tidy(Step(s, e))
  {
    OrderlyStep(s, e);
    if s.monitor.FoundAbsent? && e.SetListen? && e.ok {
      assert !s.sniffers[Last(s)].HalfDeleted?;
    }
  }

  lemma {:induction false} TidyRun(s: State, es: seq<Event>)
    requires Tidy(s) && !Overtaken(s, es)
    ensures !Orphaned(s, es)
    decreases |es|
  {
    if es != [] {
      TidyStep(s, es[0]);
      TidyRun(Step(s, es[0]), es[1..]);
    }
  }

  /** Only a registration that falls between the two deletions of a cleanup can be orphaned, so without one
      the maps agree whenever everything is at rest. */
  lemma AgreementUnlessOvertaken(es: seq<Event>)
    requires !Overtaken(REGISTERED, es)
    ensures var s := Run(REGISTERED, es);
            !Orphaned(REGISTERED, es) && (Quiet(s) ==> s.listed == s.handled)
  {
    TidyRun(REGISTERED, es);
    OrderlyRun(REGISTERED, es);
  }

  /** The first sniffer returns, and the monitor registers the port again between the two deletions of its
      cleanup. */
  const OVERTAKING: seq<Event> := [SnifferReturns(0), Get(0), DelHandle(0), Look, SetListen(true), SetHandle]

  /** One step of a run, from s to t. */
  lemma Then(s: State, e: Event, t: State, es: seq<Event>)
    requires Step(s, e).listed == t.listed && Step(s, e).handled == t.handled && Step(s, e).monitor == t.monitor
    requires Step(s, e).sniffers == t.sniffers
    ensures Run(s, [e] + es) == Run(t, es)
    ensures Overtaken(s, [e] + es) <==> Overtakes(s, e) || Overtaken(t, es)
    ensures Orphaned(s, [e] + es) <==> Orphans(s, e) || Orphaned(t, es)
  {
    assert ([e] + es)[1..] == es;
  }

  lemma AfterOvertaking(es: seq<Event>)
    ensures var t := State(Some(1), Some(1), Watching, [HalfDeleted, Running]);
            && Run(REGISTERED, OVERTAKING + es) == Run(t, es)
            && Overtaken(REGISTERED, OVERTAKING + es)
            && (Orphaned(REGISTERED, OVERTAKING + es) <==> Orphaned(t, es))
  {
    var es5 := [SetHandle] + es;
    var es4 := [SetListen(true)] + es5;
    var es3 := [Look] + es4;
    var es2 := [DelHandle(0)] + es3;
    var es1 := [Get(0)] + es2;
    assert OVERTAKING + es == [SnifferReturns(0)] + es1;
    var s1 := State(Some(0), Some(0), Watching, [Starting]);
    var s2 := State(Some(0), Some(0), Watching, [Found]);
    var s3 := State(Some(0), None, Watching, [HalfDeleted]);
    var s4 := State(Some(0), None, FoundAbsent, [HalfDeleted]);
    var s5 := State(Some(1), None, HalfRegistered, [HalfDeleted]);
    Then(REGISTERED, SnifferReturns(0), s1, es1);
    Then(s1, Get(0), s2, es2);
    Then(s2, DelHandle(0), s3, es3);
    Then(s3, Look, s4, es4);
    assert s4.sniffers[0].HalfDeleted?;
    Then(s4, SetListen(true), s5, es5);
    Then(s5, SetHandle, State(Some(1), Some(1), Watching, [HalfDeleted, Running]), es);
  }

  /** Then the second deletion takes away the new listing, and the new registration is orphaned. */
  lemma CleanupOvertaken()
    ensures var es := OVERTAKING + [DelListen(0)];
            && Overtaken(REGISTERED, es) && Orphaned(REGISTERED, es)
            && Run(REGISTERED, es) == State(None, Some(1), Watching, [Gone, Running])
            && Quiet(Run(REGISTERED, es))
  {
    AfterOvertaking([DelListen(0)]);
    assert [DelListen(0)] == [DelListen(0)] + [];
    Then(State(Some(1), Some(1), Watching, [HalfDeleted, Running]), DelListen(0),
         State(None, Some(1), Watching, [Gone, Running]), []);
  }

  /** But if the new sniffer returns and looks the port up before that deletion, its own cleanup empties both
      maps, and the monitor will register the port again. */
  lemma OverlappingCleanups()
    ensures var es := OVERTAKING + [SnifferReturns(1), Get(1), DelHandle(1), DelListen(1), DelListen(0)];
            && Overtaken(REGISTERED, es) && !Orphaned(REGISTERED, es)
            && Run(REGISTERED, es) == State(None, None, Watching, [Gone, Gone])
            && Quiet(Run(REGISTERED, es)) && Step(Run(REGISTERED, es), Look).monitor.FoundAbsent?
  {
    var es4 := [DelListen(0)] + [];
    var es3 := [DelListen(1)] + es4;
    var es2 := [DelHandle(1)] + es3;
    var es1 := [Get(1)] + es2;
    AfterOvertaking([SnifferReturns(1)] + es1);
    assert [SnifferReturns(1)] + es1 == [SnifferReturns(1), Get(1), DelHandle(1), DelListen(1), DelListen(0)];
    var s1 := State(Some(1), Some(1), Watching, [HalfDeleted, Starting]);
    var s2 := State(Some(1), Some(1), Watching, [HalfDeleted, Found]);
    var s3 := State(Some(1), None, Watching, [HalfDeleted, HalfDeleted]);
    var s4 := State(None, None, Watching, [HalfDeleted, Gone]);
    Then(State(Some(1), Some(1), Watching, [HalfDeleted, Running]), SnifferReturns(1), s1, es1);
    Then(s1, Get(1), s2, es2);
    Then(s2, DelHandle(1), s3, es3);
    Then(s3, DelListen(1), s4, es4);
    Then(s4, DelListen(0), State(None, None, Watching, [Gone, Gone]), []);
  }
}
