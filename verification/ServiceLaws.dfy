/** What the callbacks of a service amount to over a whole run. */
module ServiceLaws {
  import opened Serializer
  import opened Types
  import opened Registry
  import opened EngineModel
  import opened Notification
  import opened ServiceModel
  import EngineLaws
  import Batch

  // ---- The engine inside ----

  lemma ClockReadingsKeepConsistent(env: Env, s: Engine, tick: nat)
    requires EngineLaws.Consistent(env, s)
    ensures EngineLaws.Consistent(env, s.(tick := tick))
  {
  }

  lemma EngineAfterIsConsistent(env: Env, s: Service, e: ServiceEvent)
    requires EngineLaws.Consistent(env, s.engine)
    ensures EngineLaws.Consistent(env, EngineAfter(env, s, e))
  {
    hide Start, Stop, PollOnce, Batch.Polls, AvailableIds, EngineLaws.Consistent;
    match e
    case Starts =>
      EngineLaws.StepKeepsConsistent(env, s.engine, CallStart);
    case Stops =>
      EngineLaws.StepKeepsConsistent(env, s.engine, CallStop);
    case Installs(_) =>
    case Passes(event) =>
      EngineLaws.StepKeepsConsistent(env, s.engine, event);
    case Lists =>
      ClockReadingsKeepConsistent(env, s.engine, EngineAfter(env, s, e).tick);
    case Polls(_) =>
      EngineLaws.StepKeepsConsistent(env, s.engine, CallPoll);
    case PollsMany(max, n, _) =>
      Batch.BatchKeepsConsistent(env, s.engine, if n < max then n + 1 else n);
  }

  lemma NextKeepsConsistent(env: Env, s: Service, e: ServiceEvent)
    requires EngineLaws.Consistent(env, s.engine) && Legal(env, s, e)
    ensures EngineLaws.Consistent(env, Next(env, s, e).engine)
  {
    hide EngineAfter, Legal, EngineLaws.Consistent;
    EngineAfterIsConsistent(env, s, e);
    ClockReadingsKeepConsistent(env, EngineAfter(env, s, e), Next(env, s, e).engine.tick);
  }

  lemma {:induction false} ServeKeepsConsistent(env: Env, s: Service, events: seq<ServiceEvent>)
    requires EngineLaws.Consistent(env, s.engine)
    ensures EngineLaws.Consistent(env, Serve(env, s, events).engine)
  {
    hide Legal, Next, EngineLaws.Consistent;
    if events != [] {
      var before, e := Serve(env, s, events[..|events| - 1]), events[|events| - 1];
      ServeKeepsConsistent(env, s, events[..|events| - 1]);
      if Legal(env, before, e) {
        NextKeepsConsistent(env, before, e);
      }
    }
  }

  // ---- The known count, and the number of callbacks ----

  /** The peers the count stands for: those available at the last notification, or registered at the last start,
      or none since the last stop. At the outset it stands for base. */
  ghost function Base(env: Env, s: Service, base: set<bytes>, events: seq<ServiceEvent>): set<bytes> {
    if events == [] then base else
    var earlier, e := events[..|events| - 1], events[|events| - 1];
    var before := Serve(env, s, earlier);
    match e
    case Starts => if before.optionsValid then before.engine.peers.Keys else Base(env, s, base, earlier)
    case Stops => {}
    case Polls(_) => AvailableAt(env, before, e)
    case PollsMany(_, _, _) => AvailableAt(env, before, e)
    case _ => Base(env, s, base, earlier)
  }

  function Excess(a: nat, b: nat): nat {
    if a > b then a - b else 0
  }

  /** How far the number of available peers rises above the number at the notification before, summed over the
      notifications made with a handler installed. */
  ghost function Rises(env: Env, s: Service, base: set<bytes>, events: seq<ServiceEvent>): nat {
    if events == [] then 0 else
    var earlier, e := events[..|events| - 1], events[|events| - 1];
    var before := Serve(env, s, earlier);
    Rises(env, s, base, earlier)
    + if Notifies(e) && before.handler then Excess(|AvailableAt(env, before, e)|, |Base(env, s, base, earlier)|) else 0
  }

  /** How far it falls. */
  ghost function Falls(env: Env, s: Service, base: set<bytes>, events: seq<ServiceEvent>): nat {
    if events == [] then 0 else
    var earlier, e := events[..|events| - 1], events[|events| - 1];
    var before := Serve(env, s, earlier);
    Falls(env, s, base, earlier)
    + if Notifies(e) && before.handler then Excess(|Base(env, s, base, earlier)|, |AvailableAt(env, before, e)|) else 0
  }

  /** One event's callbacks, and the count after it. */
  lemma NextCalls(env: Env, s: Service, e: ServiceEvent)
    requires Legal(env, s, e)
    ensures var r := Next(env, s, e);
            && s.found <= r.found
            && (Notifies(e) ==>
                  && r.known == |AvailableAt(env, s, e)|
                  && r.handler == s.handler
                  && |r.found| == |s.found| + if s.handler then Excess(r.known, s.known) else 0)
            && (!Notifies(e) ==> r.found == s.found)
            && (e.Starts? ==> r.known == if s.optionsValid then |s.engine.peers.Keys| else s.known)
            && (e.Stops? ==> r.known == 0)
            && (e.Installs? || e.Passes? || e.Lists? ==> r.known == s.known)
            && r.handler == (if e.Installs? then e.handler else s.handler)
  {
    hide EngineAfter, Batch.Outcome;
    if Notifies(e) {
      EnumerationSize(e.order, AvailableAt(env, s, e));
    }
  }

  /** Over any run the number of callbacks is the sum of the rises of the number of available peers between
      notifications, starting afresh after a stop, and from the registry's size after a start. */
  lemma {:induction false} CallbacksAreRises(env: Env, s: Service, base: set<bytes>, events: seq<ServiceEvent>)
    requires LegalRun(env, s, events) && s.known == |base|
    ensures var r := Serve(env, s, events);
            && s.found <= r.found
            && |r.found| == |s.found| + Rises(env, s, base, events)
            && r.known == |Base(env, s, base, events)|
  {
    hide Legal, Next, AvailableAt;
    if events != [] {
      var earlier := events[..|events| - 1];
      CallbacksAreRises(env, s, base, earlier);
      NextCalls(env, Serve(env, s, earlier), events[|events| - 1]);
    }
  }

  /** No start, stop or change of handler. */
  ghost predicate Steady(events: seq<ServiceEvent>) {
    forall i :: 0 <= i < |events| ==> !events[i].Starts? && !events[i].Stops? && !events[i].Installs?
  }

  lemma SteadyPrefix(events: seq<ServiceEvent>)
    requires Steady(events) && events != []
    ensures var n := |events| - 1;
            Steady(events[..n]) && !events[n].Starts? && !events[n].Stops? && !events[n].Installs?
  {
    assert forall i :: 0 <= i < |events| - 1 ==> events[..|events| - 1][i] == events[i];
  }

  /** While a handler stays installed, the callbacks exceed the net growth of the number of available peers by
      exactly what it fell in between: every peer that goes and comes back is called for once more. */
  lemma {:induction false} CallbacksExceedGrowthByFalls(
    env: Env, s: Service, base: set<bytes>, events: seq<ServiceEvent>)
    requires LegalRun(env, s, events) && s.known == |base| && s.handler && Steady(events)
    ensures var r := Serve(env, s, events);
            && r.handler
            && |r.found| - |s.found| == |Base(env, s, base, events)| - |base| + Falls(env, s, base, events)
  {
    hide Legal, Next, AvailableAt;
    if events != [] {
      var earlier := events[..|events| - 1];
      SteadyPrefix(events);
      CallbacksExceedGrowthByFalls(env, s, base, earlier);
      CallbacksAreRises(env, s, base, earlier);
      NextCalls(env, Serve(env, s, earlier), events[|events| - 1]);
    }
  }

  // ---- Which peers the callbacks are for ----

  /** The callbacks made between two states of a service are for exactly these ids, each once. */
  ghost predicate CallsForExactly(s: Service, r: Service, ids: set<bytes>) {
    s.found <= r.found && Enumerates(IdsOf(r.found[|s.found|..]), ids)
  }

  lemma PublicIdsAreKeys(env: Env, s: Engine, ids: seq<bytes>)
    requires EngineLaws.Consistent(env, s) && forall id :: id in ids ==> id in s.peers
    ensures IdsOf(Publics(Select(s.peers, ids))) == ids
  {
    forall i | 0 <= i < |ids| ensures IdsOf(Publics(Select(s.peers, ids)))[i] == ids[i] {
      assert ids[i] in ids;
    }
  }

  lemma PublicsShowTheRegistry(env: Env, s: Engine, ids: seq<bytes>)
    requires EngineLaws.Consistent(env, s)
    requires forall id :: id in ids ==> id in s.peers && s.peers[id].Available()
    ensures forall i :: 0 <= i < |ids| ==>
              var q := Publics(Select(s.peers, ids))[i]; q.nodeId == ids[i] && Shows(q, s.peers)
  {
    forall i | 0 <= i < |ids|
      ensures var q := Publics(Select(s.peers, ids))[i]; q.nodeId == ids[i] && Shows(q, s.peers)
    {
      assert ids[i] in ids;
    }
  }

  /** Every callback gives the host, the port and the last sighting that the registry then holds under its id. */
  lemma CallbacksShowTheRegistry(env: Env, s: Service, e: ServiceEvent)
    requires EngineLaws.Consistent(env, s.engine) && Legal(env, s, e)
    ensures var r := Next(env, s, e);
            && s.found <= r.found
            && forall i :: |s.found| <= i < |r.found| ==> Shows(r.found[i], EngineAfter(env, s, e).peers)
  {
    hide EngineAfter, Batch.Outcome, EngineLaws.Consistent, Shows;
    if Notifies(e) {
      var engine, reported := EngineAfter(env, s, e), if s.handler then Reported(s.known, e.order) else [];
      EngineAfterIsConsistent(env, s, e);
      PublicsShowTheRegistry(env, engine, reported);
      assert Next(env, s, e).found == s.found + Publics(Select(engine.peers, reported));
    }
  }

  /** The ids of a notification's callbacks are the reported part of the listing. */
  lemma NotificationReports(env: Env, s: Service, e: ServiceEvent)
    requires EngineLaws.Consistent(env, s.engine) && Legal(env, s, e) && Notifies(e)
    ensures var r := Next(env, s, e);
            && s.found <= r.found && r.known == |e.order|
            && IdsOf(r.found[|s.found|..]) == if s.handler then Reported(s.known, e.order) else []
  {
    hide EngineAfter, Batch.Outcome, EngineLaws.Consistent;
    var engine, reported := EngineAfter(env, s, e), if s.handler then Reported(s.known, e.order) else [];
    EngineAfterIsConsistent(env, s, e);
    PublicIdsAreKeys(env, engine, reported);
    assert Next(env, s, e).found == s.found + Publics(Select(engine.peers, reported));
    assert Next(env, s, e).found[|s.found|..] == Publics(Select(engine.peers, reported));
  }

  /** A notification with a handler installed is certain to call back for exactly the new peers, once each, if and
      only if it was preceded by none or there are none. */
  lemma NotificationReportsTheNewIff(env: Env, s: Service, base: set<bytes>, e: ServiceEvent)
    requires EngineLaws.Consistent(env, s.engine) && s.handler && s.known == |base|
    requires Notifies(e) && Legal(env, s, e)
    ensures var after := AvailableAt(env, s, e);
            (forall order :: Legal(env, s, e.(order := order)) ==>
               CallsForExactly(s, Next(env, s, e.(order := order)), after - base))
            <==> base == {} || after <= base
  {
    hide EngineAfter, Batch.Outcome, EngineLaws.Consistent, Next, Enumerates, Reported;
    var after := AvailableAt(env, s, e);
    forall order
      ensures Legal(env, s, e.(order := order)) <==> Enumerates(order, after)
      ensures Legal(env, s, e.(order := order)) ==>
                (CallsForExactly(s, Next(env, s, e.(order := order)), after - base)
                 <==> ReportsTheNew(base, after, order))
    {
      EngineIgnoresListing(env, s, e, order);
      if Legal(env, s, e.(order := order)) {
        NotificationReports(env, s, e.(order := order));
      }
    }
    EveryOrderReportsTheNewIff(base, after);
  }

  lemma EngineIgnoresListing(env: Env, s: Service, e: ServiceEvent, order: seq<bytes>)
    requires Notifies(e)
    ensures EngineAfter(env, s, e.(order := order)) == EngineAfter(env, s, e)
  {
  }

  lemma NewEngineIsConsistent(env: Env, s: Service)
    requires New(s)
    ensures EngineLaws.Consistent(env, s.engine)
  {
    EngineLaws.AlwaysConsistent(env, s.engine, []);
  }

  /** The engine is polled and stopped through the service only, and the service is not started while it runs. */
  ghost predicate Undisturbed(env: Env, s: Service, events: seq<ServiceEvent>) {
    forall n :: 0 <= n < |events| ==>
      && (events[n].Passes? ==> !events[n].event.CallPoll? && !events[n].event.CallStop?)
      && (events[n].Starts? ==> Serve(env, s, events[..n]).engine.status != Running)
  }

  lemma UndisturbedPrefix(env: Env, s: Service, events: seq<ServiceEvent>)
    requires Undisturbed(env, s, events) && events != []
    ensures var n := |events| - 1;
            && Undisturbed(env, s, events[..n])
            && (events[n].Passes? ==> !events[n].event.CallPoll? && !events[n].event.CallStop?)
            && (events[n].Starts? ==> Serve(env, s, events[..n]).engine.status != Running)
  {
    hide Serve;
    var earlier := events[..|events| - 1];
    assert forall i :: 0 <= i < |earlier| ==> earlier[i] == events[i] && earlier[..i] == events[..i];
  }

  /** What an event leaves available. */
  lemma NextAvailable(env: Env, s: Service, e: ServiceEvent)
    requires EngineLaws.Consistent(env, s.engine) && Legal(env, s, e)
    requires e.Passes? ==> !e.event.CallPoll? && !e.event.CallStop?
    ensures var r := Next(env, s, e);
            && (Notifies(e) ==> AvailableIds(r.engine.peers) == AvailableAt(env, s, e))
            && (e.Stops? ==> r.engine.peers == map[])
            && (!Notifies(e) && !e.Stops? ==> r.engine.peers == s.engine.peers)
    ensures s.engine.status != Running ==> s.engine.peers == map[]
  {
    hide Step, PollOnce, Batch.Polls, Batch.Outcome;
    if e.Passes? {
      OtherEffect(env, s.engine, e.event);
    }
  }

  /** Then the count always stands for the peers available right now. */
  lemma {:induction false} BaseIsAvailable(env: Env, s: Service, events: seq<ServiceEvent>)
    requires New(s) && LegalRun(env, s, events) && Undisturbed(env, s, events)
    ensures Base(env, s, {}, events) == AvailableIds(Serve(env, s, events).engine.peers)
    ensures EngineLaws.Consistent(env, Serve(env, s, events).engine)
  {
    hide Legal, Next, AvailableAt, EngineLaws.Consistent;
    NewEngineIsConsistent(env, s);
    ServeKeepsConsistent(env, s, events);
    if events != [] {
      var earlier, e := events[..|events| - 1], events[|events| - 1];
      UndisturbedPrefix(env, s, events);
      BaseIsAvailable(env, s, earlier);
      NextAvailable(env, Serve(env, s, earlier), e);
    }
  }

  /** So it is for every notification of every run, with the peers the count stands for; and these are the peers
      available before the call, if the engine is left to the service. */
  lemma RunReportsTheNewIff(env: Env, s: Service, events: seq<ServiceEvent>, e: ServiceEvent)
    requires New(s) && LegalRun(env, s, events + [e]) && Notifies(e) && Serve(env, s, events).handler
    ensures var now, before := Serve(env, s, events), Base(env, s, {}, events);
            var after := AvailableAt(env, now, e);
            (forall order :: Legal(env, now, e.(order := order)) ==>
               CallsForExactly(now, Next(env, now, e.(order := order)), after - before))
            <==> before == {} || after <= before
    ensures Undisturbed(env, s, events) ==>
              Base(env, s, {}, events) == AvailableIds(Serve(env, s, events).engine.peers)
  {
    hide Legal, Next, AvailableAt, Serve, Base, Initial, Undisturbed, EngineLaws.Consistent;
    assert (events + [e])[..|events|] == events;
    NewEngineIsConsistent(env, s);
    ServeKeepsConsistent(env, s, events);
    CallbacksAreRises(env, s, {}, events);
    NotificationReportsTheNewIff(env, Serve(env, s, events), Base(env, s, {}, events), e);
    if Undisturbed(env, s, events) {
      BaseIsAvailable(env, s, events);
    }
  }

  // ---- Listings that extend each other ----

  /** The listing at the last notification. */
  function LastOrder(first: seq<bytes>, events: seq<ServiceEvent>): seq<bytes> {
    if events == [] then first else
    var e := events[|events| - 1];
    if Notifies(e) then e.order else LastOrder(first, events[..|events| - 1])
  }

  /** Each listing extends the one before, as when peers are only ever added at its end. */
  ghost predicate Extending(first: seq<bytes>, events: seq<ServiceEvent>) {
    forall n :: 0 <= n < |events| && Notifies(events[n]) ==> LastOrder(first, events[..n]) <= events[n].order
  }

  lemma ExtendingPrefix(first: seq<bytes>, events: seq<ServiceEvent>)
    requires Extending(first, events) && events != []
    ensures var n := |events| - 1;
            && Extending(first, events[..n])
            && (Notifies(events[n]) ==> LastOrder(first, events[..n]) <= events[n].order)
  {
    hide LastOrder;
    var earlier := events[..|events| - 1];
    assert forall i :: 0 <= i < |earlier| ==> earlier[i] == events[i] && earlier[..i] == events[..i];
  }

  lemma IdsOfSum(a: seq<PublicPeer>, b: seq<PublicPeer>)
    ensures IdsOf(a + b) == IdsOf(a) + IdsOf(b)
  {
  }

  lemma ListingSplits(last: seq<bytes>, order: seq<bytes>)
    requires last <= order
    ensures last + Reported(|last|, order) == order
  {
  }

  lemma ReportContinuesListing(first: seq<bytes>, found: seq<PublicPeer>, start: nat, last: seq<bytes>,
                               grown: seq<PublicPeer>, order: seq<bytes>)
    requires start <= |found| && found <= grown && first + IdsOf(found[start..]) == last <= order
    requires IdsOf(grown[|found|..]) == Reported(|last|, order)
    ensures first + IdsOf(grown[start..]) == order
  {
    hide IdsOf;
    assert grown[start..] == found[start..] + grown[|found|..];
    IdsOfSum(found[start..], grown[|found|..]);
    ListingSplits(last, order);
  }

  /** The ids of the callbacks an event adds. */
  lemma NextCallIds(env: Env, s: Service, first: seq<bytes>, start: nat, last: seq<bytes>, e: ServiceEvent)
    requires EngineLaws.Consistent(env, s.engine) && Legal(env, s, e) && s.handler
    requires !e.Starts? && !e.Stops? && !e.Installs?
    requires start <= |s.found| && first + IdsOf(s.found[start..]) == last && s.known == |last|
    requires Notifies(e) ==> last <= e.order
    ensures var r := Next(env, s, e);
            && start <= |r.found| && r.handler && r.known == |if Notifies(e) then e.order else last|
            && first + IdsOf(r.found[start..]) == if Notifies(e) then e.order else last
  {
    hide Next, Legal, EngineLaws.Consistent, AvailableAt, Reported, IdsOf;
    NextCalls(env, s, e);
    var r := Next(env, s, e);
    if Notifies(e) {
      NotificationReports(env, s, e);
      ReportContinuesListing(first, s.found, start, last, r.found, e.order);
    }
  }

  /** If each listing extends the one before, the callbacks made while the handler stays installed are for the
      peers that follow those of the first listing, once each, in the order of the last listing. */
  lemma {:induction false} ExtendingOrdersReportEachOnce(
    env: Env, s: Service, first: seq<bytes>, events: seq<ServiceEvent>)
    requires EngineLaws.Consistent(env, s.engine) && LegalRun(env, s, events)
    requires s.handler && s.known == |first| && Steady(events) && Extending(first, events)
    ensures var r := Serve(env, s, events);
            && r.handler && |s.found| <= |r.found|
            && r.known == |LastOrder(first, events)|
            && first + IdsOf(r.found[|s.found|..]) == LastOrder(first, events)
  {
    hide Legal, Next, EngineLaws.Consistent, Extending, Steady, Notifies;
    if events == [] {
      assert first + IdsOf(s.found[|s.found|..]) == first;
    } else {
      var n := |events| - 1;
      var before := Serve(env, s, events[..n]);
      SteadyPrefix(events);
      ExtendingPrefix(first, events);
      ExtendingOrdersReportEachOnce(env, s, first, events[..n]);
      ServeKeepsConsistent(env, s, events[..n]);
      NextCallIds(env, before, first, |s.found|, LastOrder(first, events[..n]), events[n]);
    }
  }

  lemma {:induction false} LastOrderListsBase(
    env: Env, s: Service, first: seq<bytes>, base: set<bytes>, events: seq<ServiceEvent>)
    requires LegalRun(env, s, events) && Steady(events) && Enumerates(first, base)
    ensures Enumerates(LastOrder(first, events), Base(env, s, base, events))
  {
    hide EngineAfter, Batch.Outcome, AvailableIds, Enumerates, Steady;
    if events != [] {
      SteadyPrefix(events);
      LastOrderListsBase(env, s, first, base, events[..|events| - 1]);
    }
  }

  /** So they are for exactly the peers that became available since. */
  lemma ExtendingOrdersReportTheNew(
    env: Env, s: Service, first: seq<bytes>, base: set<bytes>, events: seq<ServiceEvent>)
    requires EngineLaws.Consistent(env, s.engine) && LegalRun(env, s, events)
    requires s.handler && s.known == |base| && Enumerates(first, base) && Steady(events) && Extending(first, events)
    ensures CallsForExactly(s, Serve(env, s, events), Base(env, s, base, events) - base)
    ensures base <= Base(env, s, base, events)
  {
    hide Serve, Base, LastOrder, Steady, Extending, LegalRun, EngineLaws.Consistent;
    EnumerationSize(first, base);
    CallbacksAreRises(env, s, base, events);
    ExtendingOrdersReportEachOnce(env, s, first, events);
    LastOrderListsBase(env, s, first, base, events);
    var added := IdsOf(Serve(env, s, events).found[|s.found|..]);
    var last := LastOrder(first, events);
    assert forall i :: 0 <= i < |added| ==> added[i] == last[|first| + i];
    assert forall id :: id in last <==> id in first || id in added;
    forall id | id in first ensures id !in added {
      var i :| 0 <= i < |first| && first[i] == id;
      assert last[i] == id;
    }
  }
}
