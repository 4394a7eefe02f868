/**
 What holds of all programs of nested transaction blocks, whatever exceptions they raise: push messages get out in
 order, and exactly once unless a delivery raises; every event is taken to a commit exactly once and in order.
 */
module TransactionLaws {
  import opened Prelude
  import opened Transactions

  // ----- A thread without buffers -----

  /**
   The reference: every message is noted as it is sent, and every event as it is recorded. Marks say where the messages
   begin that wait for the end of a block, if one is open, and up to which event a commit has taken them; the events
   it takes count as handed on if nothing goes wrong in it. `again` counts the messages that were delivered before
   another delivery raised, so that they will be delivered again.
   */
  datatype Ideal = Ideal(sent: seq<Message>, mark: Option<nat>, again: nat,
                         recorded: seq<Event>, taken: nat, handed: seq<Event>, importMode: bool)

  predicate Proper(i: Ideal) {
    i.taken <= |i.recorded| && (i.mark.Some? ==> i.mark.value <= |i.sent|)
  }

  /** Nothing that has happened is undone. */
  predicate GoesOn(i: Ideal, j: Ideal) {
    i.sent <= j.sent && i.again <= j.again && i.recorded <= j.recorded && i.importMode == j.importMode
  }

  function Marked(i: Ideal): Ideal {
    if i.mark.Some? then i else i.(mark := Some(|i.sent|))
  }

  function Direct(i: Ideal, a: Action): (r: (Ideal, bool))
    requires Proper(i)
    ensures Proper(r.0) && GoesOn(i, r.0)
    decreases a, 0
  {
    match a
    case Send(m) => (i.(sent := i.sent + [m]), false)
    case Record(e) => (if i.importMode then i else i.(recorded := i.recorded + [e]), false)
    case Look => (i, false)
    case Raise => (i, true)
    case Rescue(body) => (DirectAll(i, body).0, false)
    case Execute(_, body, backends, fault, failing) =>
      var (i1, raised) := DirectAll(Marked(i), body);
      var (i2, refused) := DirectFinish(i1, backends, fault, failing);
      (i2, raised || refused)
  }

  function DirectFinish(i: Ideal, backends: seq<Code>, fault: Fault, failing: Option<nat>): (r: (Ideal, bool))
    requires Proper(i)
    ensures Proper(r.0) && GoesOn(i, r.0)
    decreases backends, 2
  {
    var (i1, refused) := DirectCommit(i, backends, fault);
    if refused then (i1, true) else DirectDelivery(i1, failing)
  }

  function DirectDelivery(i: Ideal, failing: Option<nat>): (r: (Ideal, bool))
    requires Proper(i)
    ensures Proper(r.0) && GoesOn(i, r.0)
  {
    if i.mark.Some? && failing.Some? && failing.value < |i.sent| - i.mark.value
    then (i.(again := i.again + failing.value), true)
    else (i.(mark := None), false)
  }

  function DirectAll(i: Ideal, body: seq<Action>): (r: (Ideal, bool))
    requires Proper(i)
    ensures Proper(r.0) && GoesOn(i, r.0)
    decreases body, 0
  {
    if body == [] then (i, false)
    else
      var (i1, raised) := Direct(i, body[0]);
      if raised then (i1, true) else DirectAll(i1, body[1..])
  }

  function AllTaken(i: Ideal): Ideal
    requires Proper(i)
  {
    i.(taken := |i.recorded|)
  }

  function DirectCommit(i: Ideal, backends: seq<Code>, fault: Fault): (r: (Ideal, bool))
    requires Proper(i)
    ensures Proper(r.0) && GoesOn(i, r.0)
    decreases backends, 1
  {
    if fault.AtStart? then (i, true)
    else if i.importMode then (i, false)
    else if fault.BeforeBackends? then (AllTaken(i), true)
    else if i.taken == |i.recorded| then (i, false)
    else
      var handed := if fault.NoFault? then i.handed + i.recorded[i.taken..] else i.handed;
      (DirectBackends(AllTaken(i).(handed := handed), backends), fault.AtJobs?)
  }

  function DirectBackends(i: Ideal, backends: seq<Code>): (r: Ideal)
    requires Proper(i)
    ensures Proper(r) && GoesOn(i, r)
    decreases backends, 0
  {
    if backends == [] then i else DirectBackends(DirectAll(i, backends[0].body).0, backends[1..])
  }

  // ----- The program does the same -----

  function Pending(t: Thread): seq<Message> {
    if t.pushes.Some? then t.pushes.value else []
  }

  function AllEvents(ds: seq<Dispatch>): seq<Event> {
    if ds == [] then [] else AllEvents(ds[..|ds| - 1]) + ds[|ds| - 1].events
  }

  /** The events of the batches that have been handed on completely. */
  function EventsHandedOn(ds: seq<Dispatch>): seq<Event> {
    if ds == [] then []
    else
      var n := |ds| - 1;
      EventsHandedOn(ds[..n]) + if ds[n].fate.HandedOn? then ds[n].events else []
  }

  /**
   The messages sent before the mark have been delivered, those after it are in the buffer; `again` says how many
   deliveries there were beyond that, and without any it has been once each and in order.
   */
  ghost predicate MessagesAccount(t: Thread, i: Ideal) {
    match i.mark
    case None => t.pushes == None && DeliveredUpTo(t.delivered, i.sent, i.again)
    case Some(m) => m <= |i.sent| && t.pushes == Some(i.sent[m..]) && DeliveredUpTo(t.delivered, i.sent[..m], i.again)
  }

  predicate DeliveredUpTo(delivered: seq<Message>, sent: seq<Message>, again: nat) {
    && |delivered| == |sent| + again
    && (again == 0 ==> delivered == sent)
    && forall k :: 0 <= k < |sent| ==> sent[k] in delivered
  }

  ghost predicate EventsAccount(t: Thread, i: Ideal) {
    && i.taken <= |i.recorded|
    && AllEvents(t.dispatched) == i.recorded[..i.taken]
    && t.waiting == i.recorded[i.taken..]
    && EventsHandedOn(t.dispatched) == i.handed
    && t.importMode == i.importMode
  }

  ghost predicate Accounts(t: Thread, i: Ideal) {
    MessagesAccount(t, i) && EventsAccount(t, i)
  }

  lemma OtherFieldsDoNotCount(t: Thread, u: Thread, i: Ideal)
    requires Accounts(t, i)
    requires u == t.(userId := u.userId, bulk := u.bulk, handle := u.handle, context := u.context, seen := u.seen)
    ensures Accounts(u, i)
  {
  }

  lemma Opening(t: Thread, i: Ideal)
    requires Accounts(t, i)
    ensures Accounts(Opened(t), Marked(i))
  {
    if t.pushes.None? {
      assert i.sent[|i.sent|..] == [] && i.sent[..|i.sent|] == i.sent;
    }
  }

  lemma MoreDelivered(delivered: seq<Message>, sent: seq<Message>, again: nat, more: seq<Message>)
    requires DeliveredUpTo(delivered, sent, again)
    ensures DeliveredUpTo(delivered + more, sent + more, again)
  {
    forall k | 0 <= k < |sent + more|
      ensures (sent + more)[k] in delivered + more
    {
      if k < |sent| { assert sent[k] in delivered; } else { assert more[k - |sent|] in more; }
    }
  }

  lemma Repeated(delivered: seq<Message>, sent: seq<Message>, again: nat, more: seq<Message>)
    requires DeliveredUpTo(delivered, sent, again)
    ensures DeliveredUpTo(delivered + more, sent, again + |more|)
  {
    if more == [] { assert delivered + more == delivered; }
  }

  lemma DeliveryAccounts(t: Thread, i: Ideal, failing: Option<nat>)
    requires Accounts(t, i) && Proper(i)
    ensures Accounts(Delivering(t, failing).0, DirectDelivery(i, failing).0)
    ensures Delivering(t, failing).1 == DirectDelivery(i, failing).1
  {
    match i.mark
    case None =>
    case Some(m) =>
      var ms := i.sent[m..];
      if failing.Some? && failing.value < |ms| {
        Repeated(t.delivered, i.sent[..m], i.again, ms[..failing.value]);
      } else {
        MoreDelivered(t.delivered, i.sent[..m], i.again, ms);
        assert i.sent[..m] + ms == i.sent;
      }
  }

  lemma Pushing(t: Thread, i: Ideal, m: Message)
    requires Accounts(t, i)
    ensures Accounts(Pushed(t, m), i.(sent := i.sent + [m]))
  {
    match i.mark
    case None => MoreDelivered(t.delivered, i.sent, i.again, [m]);
    case Some(k) =>
      assert (i.sent + [m])[k..] == i.sent[k..] + [m];
      assert (i.sent + [m])[..k] == i.sent[..k];
  }

  lemma Recording(t: Thread, i: Ideal, e: Event)
    requires Accounts(t, i) && !t.importMode
    ensures Accounts(Recorded(t, e), i.(recorded := i.recorded + [e]))
  {
    assert (i.recorded + [e])[..i.taken] == i.recorded[..i.taken];
    assert (i.recorded + [e])[i.taken..] == i.recorded[i.taken..] + [e];
  }

  lemma Taking(t: Thread, i: Ideal, fate: Fate)
    requires Accounts(t, i) && Proper(i)
    ensures Accounts(Taken(t, fate),
                     AllTaken(i).(handed := if fate.HandedOn? then i.handed + i.recorded[i.taken..] else i.handed))
  {
    var ds := t.dispatched + [Dispatch(t.handle, t.waiting, fate)];
    assert ds[..|ds| - 1] == t.dispatched;
    assert i.recorded[..i.taken] + i.recorded[i.taken..] == i.recorded;
    assert i.recorded[..|i.recorded|] == i.recorded;
    assert i.handed + [] == i.handed;
  }

  /** In every run of every program, buffered delivery accounts for what the bufferless thread sends. */
  lemma {:induction false} RunAccounts(t: Thread, i: Ideal, a: Action)
    requires Accounts(t, i) && Proper(i)
    ensures Accounts(Run(t, a).0, Direct(i, a).0) && Run(t, a).1 == Direct(i, a).1
    decreases a, 0
  {
    match a
    case Send(m) => Pushing(t, i, m);
    case Record(e) => if !t.importMode { Recording(t, i, e); }
    case Look => OtherFieldsDoNotCount(t, Looked(t), i);
    case Raise =>
    case Rescue(body) => RunAllAccounts(t, i, body);
    case Execute(o, body, backends, fault, failing) =>
      OtherFieldsDoNotCount(t, Entered(t, o), i);
      Opening(Entered(t, o), i);
      var t0 := Opened(Entered(t, o));
      RunAllAccounts(t0, Marked(i), body);
      var t1, i1 := RunAll(t0, body).0, DirectAll(Marked(i), body).0;
      FinishAccounts(t1, i1, t, o, backends, fault, failing);
      var t2 := FinishTransaction(t1, t, o, backends, fault, failing).0;
      OtherFieldsDoNotCount(t2, Left(t2, t, o), DirectFinish(i1, backends, fault, failing).0);
  }

  lemma {:induction false} FinishAccounts(t: Thread, i: Ideal, was: Thread, o: Options, backends: seq<Code>,
                                          fault: Fault, failing: Option<nat>)
    requires Accounts(t, i) && Proper(i)
    ensures var (t', refused) := FinishTransaction(t, was, o, backends, fault, failing);
      Accounts(t', DirectFinish(i, backends, fault, failing).0)
      && refused == DirectFinish(i, backends, fault, failing).1
    decreases backends, 2
  {
    var t1 := InterfaceRestored(t, was, o);
    OtherFieldsDoNotCount(t, t1, i);
    CommitAccounts(t1, i, backends, fault);
    if !Commit(t1, backends, fault).1 {
      DeliveryAccounts(Commit(t1, backends, fault).0, DirectCommit(i, backends, fault).0, failing);
    }
  }

  lemma {:induction false} CommitAccounts(t: Thread, i: Ideal, backends: seq<Code>, fault: Fault)
    requires Accounts(t, i) && Proper(i)
    ensures var (t', refused) := Commit(t, backends, fault);
      Accounts(t', DirectCommit(i, backends, fault).0) && refused == DirectCommit(i, backends, fault).1
    decreases backends, 1
  {
    if !fault.AtStart? && !t.importMode {
      Taking(t, i, FateOf(fault));
      if fault.BeforeBackends? || i.taken == |i.recorded| {
        NothingToTake(t, i, fault);
      } else {
        assert t.waiting != [];
        var handed := if fault.NoFault? then i.handed + i.recorded[i.taken..] else i.handed;
        RunBackendsAccounts(Taken(t, FateOf(fault)), AllTaken(i).(handed := handed), backends);
      }
    }
  }

  lemma NothingToTake(t: Thread, i: Ideal, fault: Fault)
    requires Accounts(t, i) && Proper(i) && (fault.BeforeBackends? || i.taken == |i.recorded|)
    ensures fault.BeforeBackends? ==> Accounts(Taken(t, Lost), AllTaken(i))
    ensures !fault.BeforeBackends? ==> t.waiting == [] && Accounts(Taken(t, HandedOn), i)
  {
    if fault.BeforeBackends? {
      Taking(t, i, Lost);
    } else {
      Taking(t, i, HandedOn);
      assert i.handed + i.recorded[i.taken..] == i.handed;
      assert AllTaken(i).(handed := i.handed) == i;
    }
  }

  lemma {:induction false} RunAllAccounts(t: Thread, i: Ideal, body: seq<Action>)
    requires Accounts(t, i) && Proper(i)
    ensures Accounts(RunAll(t, body).0, DirectAll(i, body).0) && RunAll(t, body).1 == DirectAll(i, body).1
    decreases body, 0
  {
    if body != [] {
      RunAccounts(t, i, body[0]);
      if !Run(t, body[0]).1 {
        RunAllAccounts(Run(t, body[0]).0, Direct(i, body[0]).0, body[1..]);
      }
    }
  }

  lemma {:induction false} RunBackendsAccounts(t: Thread, i: Ideal, backends: seq<Code>)
    requires Accounts(t, i) && Proper(i)
    ensures Accounts(RunBackends(t, backends), DirectBackends(i, backends))
    decreases backends, 0
  {
    if backends != [] {
      var t0 := t.(userId := None);
      RunAllAccounts(t0, i, backends[0].body);
      RunBackendsAccounts(RunAll(t0, backends[0].body).0, DirectAll(i, backends[0].body).0, backends[1..]);
    }
  }

  // ----- The end of the outermost block -----

  /** What a thread has already sent, recorded, had taken and handed on. */
  function HistoryOf(t: Thread): Ideal {
    var taken := AllEvents(t.dispatched);
    Ideal(t.delivered + Pending(t), if t.pushes.Some? then Some(|t.delivered|) else None, 0,
          taken + t.waiting, |taken|, EventsHandedOn(t.dispatched), t.importMode)
  }

  lemma HistoryAccounts(t: Thread)
    ensures Accounts(t, HistoryOf(t)) && Proper(HistoryOf(t))
  {
    if t.pushes.None? { assert t.delivered + [] == t.delivered; }
  }

  lemma ImportModeIsKeptByAll(t: Thread, body: seq<Action>)
    ensures RunAll(t, body).0.importMode == t.importMode
  {
    HistoryAccounts(t);
    RunAllAccounts(t, HistoryOf(t), body);
  }

  /** The fault lets the commit raise, in a thread with or without waiting events. */
  predicate Raises(fault: Fault, importMode: bool, waiting: bool) {
    fault.AtStart? || (!importMode && (fault.BeforeBackends? || (fault.AtJobs? && waiting)))
  }

  /** The commit of the block raises, so that `PushMessages.finish` is not reached. */
  predicate CommitRaises(t: Thread, a: Action)
    requires a.Execute?
  {
    Raises(a.fault, t.importMode, RunAll(Opened(Entered(t, a.options)), a.body).0.waiting != [])
  }

  /** The thread when the block starts to deliver its messages. */
  function AfterCommit(t: Thread, a: Action): Thread
    requires a.Execute?
  {
    var t1 := RunAll(Opened(Entered(t, a.options)), a.body).0;
    Commit(InterfaceRestored(t1, t, a.options), a.backends, a.fault).0
  }

  /** `PushMessages.finish` is reached, and the delivery with the number `failing` is. */
  predicate DeliveryRaises(t: Thread, a: Action)
    requires a.Execute?
  {
    !CommitRaises(t, a) && a.failing.Some? && a.failing.value < |Pending(AfterCommit(t, a))|
  }

  predicate FinishRaises(t: Thread, a: Action)
    requires a.Execute?
  {
    CommitRaises(t, a) || DeliveryRaises(t, a)
  }

  lemma CommitRaisesExactly(t: Thread, a: Action)
    requires a.Execute?
    ensures var t1 := RunAll(Opened(Entered(t, a.options)), a.body).0;
      && Commit(InterfaceRestored(t1, t, a.options), a.backends, a.fault).1 == CommitRaises(t, a)
      && FinishTransaction(t1, t, a.options, a.backends, a.fault, a.failing).1 == FinishRaises(t, a)
  {
    ImportModeIsKeptByAll(Opened(Entered(t, a.options)), a.body);
  }

  lemma NoBufferUnlessFinishRaises(t: Thread, a: Action)
    requires a.Execute? && !FinishRaises(t, a)
    ensures Run(t, a).0.pushes == None
  {
    CommitRaisesExactly(t, a);
  }

  /**
   An outermost block whose end does not raise, on a thread with any history: after it, all messages sent so far are
   delivered, and this exactly once and in the order of sending if and only if none is counted as delivered again.
   Every event recorded so far has been taken to a commit or still waits, once and in order; those handed on are those
   that a commit without a fault has taken.
   */
  lemma OutermostBlockDelivers(t: Thread, a: Action)
    requires t.pushes == None && a.Execute? && !FinishRaises(t, a)
    ensures var (i, raised) := Direct(HistoryOf(t), a);
      && Run(t, a).1 == raised && t.delivered <= i.sent
      && |Run(t, a).0.delivered| == |i.sent| + i.again
      && (forall m :: m in i.sent ==> m in Run(t, a).0.delivered)
      && (Run(t, a).0.delivered == i.sent <==> i.again == 0)
      && AllEvents(Run(t, a).0.dispatched) + Run(t, a).0.waiting == i.recorded
      && EventsHandedOn(Run(t, a).0.dispatched) == i.handed
  {
    HistoryAccounts(t);
    RunAccounts(t, HistoryOf(t), a);
    NoBufferUnlessFinishRaises(t, a);
    var j := Direct(HistoryOf(t), a).0;
    assert t.delivered + [] == t.delivered;
    assert j.recorded[..j.taken] + j.recorded[j.taken..] == j.recorded;
  }

  // ----- Messages that are delivered again -----

  /** Some block that is reached ends with a delivery that raises after others have been made. */
  predicate Repeats(t: Thread, a: Action)
    decreases a, 0
  {
    match a
    case Rescue(body) => AllRepeat(t, body)
    case Execute(o, body, backends, fault, failing) =>
      var t0 := Opened(Entered(t, o));
      var t1 := InterfaceRestored(RunAll(t0, body).0, t, o);
      || AllRepeat(t0, body)
      || (BackendsRun(t1, backends, fault) && BackendsRepeat(Taken(t1, FateOf(fault)), backends))
      || (DeliveryRaises(t, a) && failing.value > 0)
    case _ => false
  }

  predicate AllRepeat(t: Thread, body: seq<Action>)
    decreases body, 0
  {
    body != [] && (Repeats(t, body[0]) || (!Run(t, body[0]).1 && AllRepeat(Run(t, body[0]).0, body[1..])))
  }

  predicate BackendsRepeat(t: Thread, backends: seq<Code>)
    decreases backends, 0
  {
    backends != []
    && (AllRepeat(t.(userId := None), backends[0].body)
        || BackendsRepeat(RunAll(t.(userId := None), backends[0].body).0, backends[1..]))
  }

  /** The backends are called: there are some, events are waiting, and nothing has gone wrong before. */
  predicate BackendsRun(t: Thread, backends: seq<Code>, fault: Fault) {
    !t.importMode && t.waiting != [] && backends != [] && (fault.NoFault? || fault.AtJobs?)
  }

  /** Messages are delivered more than once exactly if a delivery raises after others of its block have been made. */
  lemma {:induction false} RepeatedExactly(t: Thread, i: Ideal, a: Action)
    requires Accounts(t, i) && Proper(i)
    ensures Direct(i, a).0.again == i.again <==> !Repeats(t, a)
    decreases a, 0
  {
    match a
    case Rescue(body) => AllRepeatedExactly(t, i, body);
    case Execute(o, body, backends, fault, failing) =>
      OtherFieldsDoNotCount(t, Entered(t, o), i);
      Opening(Entered(t, o), i);
      var t0 := Opened(Entered(t, o));
      AllRepeatedExactly(t0, Marked(i), body);
      RunAllAccounts(t0, Marked(i), body);
      var t1, i1 := InterfaceRestored(RunAll(t0, body).0, t, o), DirectAll(Marked(i), body).0;
      OtherFieldsDoNotCount(RunAll(t0, body).0, t1, i1);
      CommitRepeatedExactly(t1, i1, backends, fault);
      DeliveryRepeatedExactly(t, a, i1);
    case _ =>
  }

  /** The delivery at the end of a block. */
  lemma DeliveryRepeatedExactly(t: Thread, a: Action, i: Ideal)
    requires a.Execute? && Proper(i)
    requires Accounts(InterfaceRestored(RunAll(Opened(Entered(t, a.options)), a.body).0, t, a.options), i)
    ensures DirectFinish(i, a.backends, a.fault, a.failing).0.again == DirectCommit(i, a.backends, a.fault).0.again
            <==> !(DeliveryRaises(t, a) && a.failing.value > 0)
  {
    CommitAccounts(InterfaceRestored(RunAll(Opened(Entered(t, a.options)), a.body).0, t, a.options), i, a.backends,
                   a.fault);
    CommitRaisesExactly(t, a);
  }

  lemma {:induction false} CommitRepeatedExactly(t: Thread, i: Ideal, backends: seq<Code>, fault: Fault)
    requires Accounts(t, i) && Proper(i)
    ensures DirectCommit(i, backends, fault).0.again == i.again
            <==> !(BackendsRun(t, backends, fault) && BackendsRepeat(Taken(t, FateOf(fault)), backends))
    decreases backends, 1
  {
    if BackendsRun(t, backends, fault) {
      Taking(t, i, FateOf(fault));
      var handed := if fault.NoFault? then i.handed + i.recorded[i.taken..] else i.handed;
      BackendsRepeatedExactly(Taken(t, FateOf(fault)), AllTaken(i).(handed := handed), backends);
    }
  }

  lemma {:induction false} AllRepeatedExactly(t: Thread, i: Ideal, body: seq<Action>)
    requires Accounts(t, i) && Proper(i)
    ensures DirectAll(i, body).0.again == i.again <==> !AllRepeat(t, body)
    decreases body, 0
  {
    if body != [] {
      RepeatedExactly(t, i, body[0]);
      RunAccounts(t, i, body[0]);
      if !Run(t, body[0]).1 { AllRepeatedExactly(Run(t, body[0]).0, Direct(i, body[0]).0, body[1..]); }
    }
  }

  lemma {:induction false} BackendsRepeatedExactly(t: Thread, i: Ideal, backends: seq<Code>)
    requires Accounts(t, i) && Proper(i)
    ensures DirectBackends(i, backends).again == i.again <==> !BackendsRepeat(t, backends)
    decreases backends, 0
  {
    if backends != [] {
      var t0 := t.(userId := None);
      AllRepeatedExactly(t0, i, backends[0].body);
      RunAllAccounts(t0, i, backends[0].body);
      BackendsRepeatedExactly(RunAll(t0, backends[0].body).0, DirectAll(i, backends[0].body).0, backends[1..]);
    }
  }

  /** Delivery by an outermost block is exactly once and in order if and only if no delivery raises after others. */
  lemma DeliveredOnceExactly(t: Thread, a: Action)
    requires t.pushes == None && a.Execute? && !FinishRaises(t, a)
    ensures Run(t, a).0.delivered == Direct(HistoryOf(t), a).0.sent <==> !Repeats(t, a)
  {
    HistoryAccounts(t);
    OutermostBlockDelivers(t, a);
    RepeatedExactly(t, HistoryOf(t), a);
  }
}
