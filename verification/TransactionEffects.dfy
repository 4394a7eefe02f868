/**
 What nested transaction blocks leave behind in the thread: the interface handle and context are always restored;
 the current user, the bulk flag, the push buffer and some events are lost or kept under conditions that the code
 of the blocks decides.
 */
module TransactionEffects {
  import opened Prelude
  import opened Transactions
  import opened TransactionLaws

  /** The thread in the body of a block, and the one its commit starts from. */
  function Inside(t: Thread, a: Action): Thread
    requires a.Execute?
  {
    Opened(Entered(t, a.options))
  }

  function AtCommit(t: Thread, a: Action): Thread
    requires a.Execute?
  {
    InterfaceRestored(RunAll(Inside(t, a), a.body).0, t, a.options)
  }

  /** What the end of a block adds to its commit. */
  lemma RunOf(t: Thread, a: Action)
    requires a.Execute?
    ensures var t1, t2 := Commit(AtCommit(t, a), a.backends, a.fault).0, Run(t, a).0;
      && t2.userId == (if a.options.resetUserId then t.userId else t1.userId)
      && t2.bulk == (!a.options.bulk && t1.bulk)
      && t2.handle == t1.handle && t2.context == t1.context && t2.dispatched == t1.dispatched
      && (t2.pushes.Some? <==> if CommitRaises(t, a) then t1.pushes.Some? else DeliveryRaises(t, a))
  {
    CommitRaisesExactly(t, a);
    var t1 := Commit(AtCommit(t, a), a.backends, a.fault).0;
    assert Run(t, a).0 == Left(if CommitRaises(t, a) then t1 else Delivering(t1, a.failing).0, t, a.options);
  }

  lemma CommitOf(t: Thread, backends: seq<Code>, fault: Fault)
    ensures BackendsRun(t, backends, fault) ==>
      Commit(t, backends, fault).0 == RunBackends(Taken(t, FateOf(fault)), backends)
    ensures !BackendsRun(t, backends, fault) ==>
      Commit(t, backends, fault).0 == t || exists fate :: Commit(t, backends, fault).0 == Taken(t, fate)
  {
    if !fault.AtStart? && !t.importMode && (t.waiting == [] || backends == [] || fault.BeforeBackends?) {
      assert Commit(t, backends, fault).0 == Taken(t, if t.waiting == [] && !fault.BeforeBackends? then HandedOn
                                                      else FateOf(fault));
    }
  }

  // ----- Handle and context -----

  /** All code leaves the interface handle and context as it found them. */
  lemma {:induction false} InterfaceIsKept(t: Thread, a: Action)
    ensures Run(t, a).0.handle == t.handle && Run(t, a).0.context == t.context
    decreases a, 0
  {
    match a
    case Rescue(body) => InterfaceIsKeptByAll(t, body);
    case Execute(o, body, backends, fault, _) =>
      InterfaceIsKeptByAll(Inside(t, a), body);
      InterfaceIsKeptByCommit(AtCommit(t, a), backends, fault);
      RunOf(t, a);
    case _ =>
  }

  lemma {:induction false} InterfaceIsKeptByAll(t: Thread, body: seq<Action>)
    ensures RunAll(t, body).0.handle == t.handle && RunAll(t, body).0.context == t.context
    decreases body, 0
  {
    if body != [] {
      InterfaceIsKept(t, body[0]);
      if !Run(t, body[0]).1 { InterfaceIsKeptByAll(Run(t, body[0]).0, body[1..]); }
    }
  }

  lemma {:induction false} InterfaceIsKeptByCommit(t: Thread, backends: seq<Code>, fault: Fault)
    ensures Commit(t, backends, fault).0.handle == t.handle && Commit(t, backends, fault).0.context == t.context
    decreases backends, 1
  {
    CommitOf(t, backends, fault);
    InterfaceIsKeptByBackends(Taken(t, FateOf(fault)), backends);
  }

  lemma {:induction false} InterfaceIsKeptByBackends(t: Thread, backends: seq<Code>)
    ensures RunBackends(t, backends).handle == t.handle && RunBackends(t, backends).context == t.context
    decreases backends, 0
  {
    if backends != [] {
      InterfaceIsKeptByAll(t.(userId := None), backends[0].body);
      InterfaceIsKeptByBackends(RunAll(t.(userId := None), backends[0].body).0, backends[1..]);
    }
  }

  lemma {:induction false} DispatchesStay(t: Thread, a: Action)
    ensures t.dispatched <= Run(t, a).0.dispatched
    decreases a, 0
  {
    match a
    case Rescue(body) => DispatchesStayInAll(t, body);
    case Execute(o, body, backends, fault, _) =>
      DispatchesStayInAll(Inside(t, a), body);
      DispatchesStayInCommit(AtCommit(t, a), backends, fault);
      RunOf(t, a);
    case _ =>
  }

  lemma {:induction false} DispatchesStayInAll(t: Thread, body: seq<Action>)
    ensures t.dispatched <= RunAll(t, body).0.dispatched
    decreases body, 0
  {
    if body != [] {
      DispatchesStay(t, body[0]);
      if !Run(t, body[0]).1 { DispatchesStayInAll(Run(t, body[0]).0, body[1..]); }
    }
  }

  lemma {:induction false} DispatchesStayInCommit(t: Thread, backends: seq<Code>, fault: Fault)
    ensures t.dispatched <= Commit(t, backends, fault).0.dispatched
    ensures !fault.AtStart? && !t.importMode ==>
      exists fate :: t.dispatched + [Dispatch(t.handle, t.waiting, fate)] <= Commit(t, backends, fault).0.dispatched
    decreases backends, 1
  {
    DispatchesStayInBackends(Taken(t, FateOf(fault)), backends);
    if !fault.AtStart? && !t.importMode {
      var fate := if t.waiting == [] && !fault.BeforeBackends? then HandedOn else FateOf(fault);
      assert t.dispatched + [Dispatch(t.handle, t.waiting, fate)] <= Commit(t, backends, fault).0.dispatched;
    }
  }

  lemma {:induction false} DispatchesStayInBackends(t: Thread, backends: seq<Code>)
    ensures t.dispatched <= RunBackends(t, backends).dispatched
    decreases backends, 0
  {
    if backends != [] {
      var t0 := t.(userId := None);
      DispatchesStayInAll(t0, backends[0].body);
      DispatchesStayInBackends(RunAll(t0, backends[0].body).0, backends[1..]);
    }
  }

  /**
   The first thing that the commit of a block hands to the dispatcher is its waiting events with the handle of the
   code around the block, not the block's own: the handle is restored before the commit reads it.
   */
  lemma DispatchGetsTheOuterHandle(t: Thread, a: Action)
    requires a.Execute? && !t.importMode && !a.fault.AtStart?
    ensures var n := |AtCommit(t, a).dispatched|;
      && n < |Run(t, a).0.dispatched|
      && Run(t, a).0.dispatched[n].handle == t.handle
      && Run(t, a).0.dispatched[n].events == AtCommit(t, a).waiting
  {
    InterfaceIsKeptByAll(Inside(t, a), a.body);
    ImportModeIsKeptByAll(Inside(t, a), a.body);
    DispatchesStayInCommit(AtCommit(t, a), a.backends, a.fault);
    RunOf(t, a);
  }

  // ----- The current user -----

  /** A backend has run in a block that does not reset the user id, and that no such block contains. */
  predicate LosesUser(t: Thread, a: Action)
    decreases a, 0
  {
    match a
    case Rescue(body) => AllLoseUser(t, body)
    case Execute(o, body, backends, fault, _) =>
      !o.resetUserId && (AllLoseUser(Inside(t, a), body) || BackendsRun(AtCommit(t, a), backends, fault))
    case _ => false
  }

  predicate AllLoseUser(t: Thread, body: seq<Action>)
    decreases body, 0
  {
    body != []
    && (LosesUser(t, body[0]) || (!Run(t, body[0]).1 && AllLoseUser(Run(t, body[0]).0, body[1..])))
  }

  function UserAfter(before: Option<int>, lost: bool): Option<int> {
    if lost then None else before
  }

  /** The user after any code is the one before it, or none exactly if a commit has run its backends outside reset. */
  lemma {:induction false} UserIsLostExactly(t: Thread, a: Action)
    ensures Run(t, a).0.userId == UserAfter(t.userId, LosesUser(t, a))
    decreases a, 0
  {
    match a
    case Rescue(body) => UserIsLostExactlyByAll(t, body);
    case Execute(o, body, backends, fault, _) =>
      UserIsLostExactlyByAll(Inside(t, a), body);
      RunOf(t, a);
      CommitOf(AtCommit(t, a), backends, fault);
      UserAfterBackends(Taken(AtCommit(t, a), FateOf(fault)), backends);
    case _ =>
  }

  lemma {:induction false} UserIsLostExactlyByAll(t: Thread, body: seq<Action>)
    ensures RunAll(t, body).0.userId == UserAfter(t.userId, AllLoseUser(t, body))
    decreases body, 0
  {
    if body != [] {
      UserIsLostExactly(t, body[0]);
      if !Run(t, body[0]).1 { UserIsLostExactlyByAll(Run(t, body[0]).0, body[1..]); }
    }
  }

  lemma {:induction false} UserAfterBackends(t: Thread, backends: seq<Code>)
    ensures RunBackends(t, backends).userId == UserAfter(t.userId, backends != [])
    decreases backends, 0
  {
    if backends != [] {
      var t0 := t.(userId := None);
      UserIsLostExactlyByAll(t0, backends[0].body);
      UserAfterBackends(RunAll(t0, backends[0].body).0, backends[1..]);
    }
  }

  // ----- The bulk flag -----

  /** A bulk block begins somewhere in the code that is reached. */
  predicate RunsBulk(t: Thread, a: Action)
    decreases a, 0
  {
    match a
    case Rescue(body) => AllRunBulk(t, body)
    case Execute(o, body, backends, fault, _) =>
      || o.bulk
      || AllRunBulk(Inside(t, a), body)
      || (BackendsRun(AtCommit(t, a), backends, fault)
          && BackendsRunBulk(Taken(AtCommit(t, a), FateOf(fault)), backends))
    case _ => false
  }

  predicate AllRunBulk(t: Thread, body: seq<Action>)
    decreases body, 0
  {
    body != [] && (RunsBulk(t, body[0]) || (!Run(t, body[0]).1 && AllRunBulk(Run(t, body[0]).0, body[1..])))
  }

  predicate BackendsRunBulk(t: Thread, backends: seq<Code>)
    decreases backends, 0
  {
    backends != []
    && (AllRunBulk(t.(userId := None), backends[0].body)
        || BackendsRunBulk(RunAll(t.(userId := None), backends[0].body).0, backends[1..]))
  }

  /** The bulk flag is on after any code exactly if it was on before and no bulk block has run in it. */
  lemma {:induction false} BulkIsTurnedOffExactly(t: Thread, a: Action)
    ensures Run(t, a).0.bulk <==> t.bulk && !RunsBulk(t, a)
    decreases a, 0
  {
    match a
    case Rescue(body) => BulkIsTurnedOffExactlyByAll(t, body);
    case Execute(o, body, backends, fault, _) =>
      BulkIsTurnedOffExactlyByAll(Inside(t, a), body);
      RunOf(t, a);
      CommitOf(AtCommit(t, a), backends, fault);
      BulkAfterBackends(Taken(AtCommit(t, a), FateOf(fault)), backends);
    case _ =>
  }

  lemma {:induction false} BulkIsTurnedOffExactlyByAll(t: Thread, body: seq<Action>)
    ensures RunAll(t, body).0.bulk <==> t.bulk && !AllRunBulk(t, body)
    decreases body, 0
  {
    if body != [] {
      BulkIsTurnedOffExactly(t, body[0]);
      if !Run(t, body[0]).1 { BulkIsTurnedOffExactlyByAll(Run(t, body[0]).0, body[1..]); }
    }
  }

  lemma {:induction false} BulkAfterBackends(t: Thread, backends: seq<Code>)
    ensures RunBackends(t, backends).bulk <==> t.bulk && !BackendsRunBulk(t, backends)
    decreases backends, 0
  {
    if backends != [] {
      var t0 := t.(userId := None);
      BulkIsTurnedOffExactlyByAll(t0, backends[0].body);
      BulkAfterBackends(RunAll(t0, backends[0].body).0, backends[1..]);
    }
  }

  // ----- The push buffer -----

  /**
   A block leaves a buffer only if its end raises: always if a delivery does, and if the commit does, then if the code
   in it leaves one, which starts with an open one; code without blocks leaves things as they are.
   */
  predicate LeavesBuffer(t: Thread, a: Action, open: bool)
    decreases a, 0
  {
    match a
    case Rescue(body) => AllLeaveBuffer(t, body, open)
    case Execute(_, body, backends, fault, _) =>
      var afterBody := AllLeaveBuffer(Inside(t, a), body, true);
      if !CommitRaises(t, a) then DeliveryRaises(t, a)
      else if BackendsRun(AtCommit(t, a), backends, fault)
        then BackendsLeaveBuffer(Taken(AtCommit(t, a), FateOf(fault)), backends, afterBody)
      else afterBody
    case _ => open
  }

  predicate AllLeaveBuffer(t: Thread, body: seq<Action>, open: bool)
    decreases body, 0
  {
    if body == [] then open
    else
      var left := LeavesBuffer(t, body[0], open);
      if Run(t, body[0]).1 then left else AllLeaveBuffer(Run(t, body[0]).0, body[1..], left)
  }

  predicate BackendsLeaveBuffer(t: Thread, backends: seq<Code>, open: bool)
    decreases backends, 0
  {
    if backends == [] then open
    else
      var t0 := t.(userId := None);
      BackendsLeaveBuffer(RunAll(t0, backends[0].body).0, backends[1..], AllLeaveBuffer(t0, backends[0].body, open))
  }

  /** There is a push buffer after any code exactly if the code leaves one; an earlier one counts for a block not. */
  lemma {:induction false} BufferIsLeftExactly(t: Thread, a: Action)
    ensures Run(t, a).0.pushes.Some? <==> LeavesBuffer(t, a, t.pushes.Some?)
    decreases a, 0
  {
    match a
    case Rescue(body) => BufferIsLeftExactlyByAll(t, body);
    case Execute(_, body, backends, fault, _) =>
      BufferIsLeftExactlyByAll(Inside(t, a), body);
      RunOf(t, a);
      CommitOf(AtCommit(t, a), backends, fault);
      BufferAfterBackends(Taken(AtCommit(t, a), FateOf(fault)), backends);
    case _ =>
  }

  lemma {:induction false} BufferIsLeftExactlyByAll(t: Thread, body: seq<Action>)
    ensures RunAll(t, body).0.pushes.Some? <==> AllLeaveBuffer(t, body, t.pushes.Some?)
    decreases body, 0
  {
    if body != [] {
      BufferIsLeftExactly(t, body[0]);
      if !Run(t, body[0]).1 { BufferIsLeftExactlyByAll(Run(t, body[0]).0, body[1..]); }
    }
  }

  lemma {:induction false} BufferAfterBackends(t: Thread, backends: seq<Code>)
    ensures RunBackends(t, backends).pushes.Some? <==> BackendsLeaveBuffer(t, backends, t.pushes.Some?)
    decreases backends, 0
  {
    if backends != [] {
      var t0 := t.(userId := None);
      BufferIsLeftExactlyByAll(t0, backends[0].body);
      BufferAfterBackends(RunAll(t0, backends[0].body).0, backends[1..]);
    }
  }

  /** No block in the code. */
  predicate Flat(a: Action)
    decreases a, 0
  {
    match a
    case Rescue(body) => FlatAll(body)
    case Execute(_, _, _, _, _) => false
    case _ => true
  }

  predicate FlatAll(body: seq<Action>)
    decreases body, 0
  {
    body == [] || (Flat(body[0]) && FlatAll(body[1..]))
  }

  lemma {:induction false} FlatCodeLeavesBuffer(t: Thread, body: seq<Action>, open: bool)
    requires FlatAll(body)
    ensures AllLeaveBuffer(t, body, open) == open
    decreases body, 0
  {
    if body != [] {
      FlatActionLeavesBuffer(t, body[0], open);
      if !Run(t, body[0]).1 { FlatCodeLeavesBuffer(Run(t, body[0]).0, body[1..], open); }
    }
  }

  lemma {:induction false} FlatActionLeavesBuffer(t: Thread, a: Action, open: bool)
    requires Flat(a)
    ensures LeavesBuffer(t, a, open) == open
    decreases a, 0
  {
    if a.Rescue? { FlatCodeLeavesBuffer(t, a.body, open); }
  }

  lemma {:induction false} FlatBackendsLeaveBuffer(t: Thread, backends: seq<Code>, open: bool)
    requires forall k :: 0 <= k < |backends| ==> FlatAll(backends[k].body)
    ensures BackendsLeaveBuffer(t, backends, open) == open
    decreases backends, 0
  {
    if backends != [] {
      FlatCodeLeavesBuffer(t.(userId := None), backends[0].body, open);
      FlatBackendsLeaveBuffer(RunAll(t.(userId := None), backends[0].body).0, backends[1..], open);
    }
  }

  /** Without blocks inside it, a block leaves a buffer exactly if its end raises. */
  lemma FlatBlockLeavesBufferExactly(t: Thread, a: Action)
    requires a.Execute? && FlatAll(a.body) && forall k :: 0 <= k < |a.backends| ==> FlatAll(a.backends[k].body)
    ensures Run(t, a).0.pushes.Some? <==> FinishRaises(t, a)
  {
    BufferIsLeftExactly(t, a);
    FlatCodeLeavesBuffer(Inside(t, a), a.body, true);
    FlatBackendsLeaveBuffer(Taken(AtCommit(t, a), FateOf(a.fault)), a.backends, true);
  }

  // ----- Events that are taken and not handed on -----

  /** All events that were taken have been handed on to the backends and the jobs. */
  predicate Complete(ds: seq<Dispatch>) {
    forall k :: 0 <= k < |ds| ==> ds[k].events == [] || ds[k].fate.HandedOn?
  }

  /** A commit with waiting events goes wrong after it has taken them. */
  predicate LosesEvents(t: Thread, a: Action)
    decreases a, 0
  {
    match a
    case Rescue(body) => AllLoseEvents(t, body)
    case Execute(_, body, backends, fault, _) =>
      var t1 := AtCommit(t, a);
      || AllLoseEvents(Inside(t, a), body)
      || (!t1.importMode && t1.waiting != [] && (fault.BeforeBackends? || fault.AtJobs?))
      || (BackendsRun(t1, backends, fault) && BackendsLoseEvents(Taken(t1, FateOf(fault)), backends))
    case _ => false
  }

  predicate AllLoseEvents(t: Thread, body: seq<Action>)
    decreases body, 0
  {
    body != []
    && (LosesEvents(t, body[0]) || (!Run(t, body[0]).1 && AllLoseEvents(Run(t, body[0]).0, body[1..])))
  }

  predicate BackendsLoseEvents(t: Thread, backends: seq<Code>)
    decreases backends, 0
  {
    backends != []
    && (AllLoseEvents(t.(userId := None), backends[0].body)
        || BackendsLoseEvents(RunAll(t.(userId := None), backends[0].body).0, backends[1..]))
  }

  lemma CompleteOneMore(ds: seq<Dispatch>, d: Dispatch)
    ensures Complete(ds + [d]) <==> Complete(ds) && (d.events == [] || d.fate.HandedOn?)
  {
    assert forall k :: 0 <= k < |ds| ==> (ds + [d])[k] == ds[k];
    assert (ds + [d])[|ds|] == d;
  }

  lemma {:induction false} CommitLosesEventsExactly(t: Thread, backends: seq<Code>, fault: Fault)
    ensures var lost := !t.importMode && t.waiting != [] && (fault.BeforeBackends? || fault.AtJobs?);
      var later := BackendsRun(t, backends, fault) && BackendsLoseEvents(Taken(t, FateOf(fault)), backends);
      Complete(Commit(t, backends, fault).0.dispatched) <==> Complete(t.dispatched) && !lost && !later
    decreases backends, 1
  {
    var fate := FateOf(fault);
    CompleteOneMore(t.dispatched, Dispatch(t.handle, t.waiting, fate));
    CompleteOneMore(t.dispatched, Dispatch(t.handle, t.waiting, HandedOn));
    EventsAfterBackends(Taken(t, fate), backends);
  }

  /** Taken events have all been handed on after some code exactly if they had before and the code loses none. */
  lemma {:induction false} EventsAreLostExactly(t: Thread, a: Action)
    ensures Complete(Run(t, a).0.dispatched) <==> Complete(t.dispatched) && !LosesEvents(t, a)
    decreases a, 0
  {
    match a
    case Rescue(body) => EventsAreLostExactlyByAll(t, body);
    case Execute(_, body, backends, fault, _) =>
      EventsAreLostExactlyByAll(Inside(t, a), body);
      RunOf(t, a);
      CommitLosesEventsExactly(AtCommit(t, a), backends, fault);
    case _ =>
  }

  lemma {:induction false} EventsAreLostExactlyByAll(t: Thread, body: seq<Action>)
    ensures Complete(RunAll(t, body).0.dispatched) <==> Complete(t.dispatched) && !AllLoseEvents(t, body)
    decreases body, 0
  {
    if body != [] {
      EventsAreLostExactly(t, body[0]);
      if !Run(t, body[0]).1 { EventsAreLostExactlyByAll(Run(t, body[0]).0, body[1..]); }
    }
  }

  lemma {:induction false} EventsAfterBackends(t: Thread, backends: seq<Code>)
    ensures Complete(RunBackends(t, backends).dispatched)
            <==> Complete(t.dispatched) && !BackendsLoseEvents(t, backends)
    decreases backends, 0
  {
    if backends != [] {
      var t0 := t.(userId := None);
      EventsAreLostExactlyByAll(t0, backends[0].body);
      EventsAfterBackends(RunAll(t0, backends[0].body).0, backends[1..]);
    }
  }

  /** While all are complete, the events handed on are the events taken. */
  lemma {:induction false} CompleteMeansAllHandedOn(ds: seq<Dispatch>)
    requires Complete(ds)
    ensures EventsHandedOn(ds) == AllEvents(ds)
  {
    if ds != [] {
      var n := |ds| - 1;
      assert forall k :: 0 <= k < n ==> ds[..n][k] == ds[k];
      CompleteMeansAllHandedOn(ds[..n]);
    }
  }
}
