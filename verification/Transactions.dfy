/**
 app/models/transaction.rb and lib/push_messages.rb: blocks run by `Transaction.execute`, nested in any way, with
 the push messages they send and the events they leave to the dispatcher.
 */
module Transactions {
  import opened Prelude
  import opened EventBuffers

  /** A push message for everybody or for one user. */
  datatype Message = Broadcast(data: int) | SendTo(userId: int, data: int)

  /** Stands for an event of lib/transaction_dispatcher.rb. */
  type Event = int

  /** Options that are not given (or blank) are None. */
  datatype Options = Options(resetUserId: bool, bulk: bool, handle: Option<string>, context: Option<string>)

  /**
   Where `perform` raises, if it does: before it takes the events (line 23), after that and before any backend is
   called (lines 33-41, as for an article whose ticket is gone), or when a job is queued (line 51).
   */
  datatype Fault = NoFault | AtStart | BeforeBackends | AtJobs

  /**
   What a block of code does to the thread. The commit of a block runs its synchronous backends, one code
   sequence for each call, if events are waiting. When the block then delivers its messages, the one with the number
   `failing` raises if there are as many. (A message whose own delivery raises at once is a `Raise`.) `Look` stands for
   any code that asks for the current user, the bulk flag, the interface handle or the context.
   */
  datatype Action =
    | Send(message: Message)
    | Record(event: Event)
    | Look
    | Raise
    | Rescue(body: seq<Action>)
    | Execute(options: Options, body: seq<Action>, backends: seq<Code>, fault: Fault,
              failing: Option<nat>)

  datatype Code = Code(body: seq<Action>)

  /** Whether events that were taken out of the buffer have all been handed on to the backends and the jobs. */
  datatype Fate = HandedOn | Interrupted | Lost

  datatype Dispatch = Dispatch(handle: Option<string>, events: seq<Event>, fate: Fate)

  /** What code finds when it asks for them. */
  datatype Sight = Sight(userId: Option<int>, bulk: bool, handle: Option<string>, context: Option<string>)

  /**
   The thread-wide state. `delivered` and `dispatched` are what has left it, in the order of leaving, and `seen` is
   what the code in it has found.
   */
  datatype Thread = Thread(userId: Option<int>, bulk: bool, handle: Option<string>, context: Option<string>,
                           pushes: Option<seq<Message>>, waiting: seq<Event>, importMode: bool,
                           delivered: seq<Message>, dispatched: seq<Dispatch>, seen: seq<Sight>)

  // ----- PushMessages -----

  function Pushed(t: Thread, m: Message): Thread {
    match t.pushes
    case None => t.(delivered := t.delivered + [m])
    case Some(ms) => t.(pushes := Some(ms + [m]))
  }

  function Opened(t: Thread): Thread {
    if t.pushes.Some? then t else t.(pushes := Some([]))
  }

  function Flushed(t: Thread): Thread {
    if t.pushes.None? then t else t.(delivered := t.delivered + t.pushes.value, pushes := None)
  }

  /** `finish`: if a delivery raises, the buffer stays as it is, with the messages before it. */
  function Delivering(t: Thread, failing: Option<nat>): (r: (Thread, bool)) {
    if t.pushes.Some? && failing.Some? && failing.value < |t.pushes.value|
    then (t.(delivered := t.delivered + t.pushes.value[..failing.value]), true)
    else (Flushed(t), false)
  }

  // ----- Transaction -----

  function Recorded(t: Thread, e: Event): Thread {
    if t.importMode then t else t.(waiting := t.waiting + [e])
  }

  function SightOf(t: Thread): Sight {
    Sight(t.userId, t.bulk, t.handle, t.context)
  }

  function Looked(t: Thread): Thread {
    t.(seen := t.seen + [SightOf(t)])
  }

  function Entered(t: Thread, o: Options): Thread {
    t.(userId := if o.resetUserId then Some(1) else t.userId,
       bulk := o.bulk || t.bulk,
       handle := if o.handle.Some? then o.handle else t.handle,
       context := if o.context.Some? then o.context else t.context)
  }

  /** Back to the interface handle and context of before the block, `was`. */
  function InterfaceRestored(t: Thread, was: Thread, o: Options): Thread {
    t.(handle := if o.handle.Some? then was.handle else t.handle,
       context := if o.context.Some? then was.context else t.context)
  }

  function Left(t: Thread, was: Thread, o: Options): Thread {
    t.(userId := if o.resetUserId then was.userId else t.userId, bulk := !o.bulk && t.bulk)
  }

  function Run(t: Thread, a: Action): (r: (Thread, bool))
    decreases a, 0
  {
    match a
    case Send(m) => (Pushed(t, m), false)
    case Record(e) => (Recorded(t, e), false)
    case Look => (Looked(t), false)
    case Raise => (t, true)
    case Rescue(body) => (RunAll(t, body).0, false)
    case Execute(o, body, backends, fault, failing) =>
      var (t1, raised) := RunAll(Opened(Entered(t, o)), body);
      var (t2, refused) := FinishTransaction(t1, t, o, backends, fault, failing);
      (Left(t2, t, o), raised || refused)
  }

  /** The messages are delivered last, and not at all if the commit raises. `was` is the thread before the block. */
  function FinishTransaction(t: Thread, was: Thread, o: Options, backends: seq<Code>, fault: Fault,
                             failing: Option<nat>): (r: (Thread, bool))
    decreases backends, 2
  {
    var (t1, refused) := Commit(InterfaceRestored(t, was, o), backends, fault);
    if refused then (t1, true) else Delivering(t1, failing)
  }

  /** Code in sequence, up to the first exception. */
  function RunAll(t: Thread, body: seq<Action>): (r: (Thread, bool))
    decreases body, 0
  {
    if body == [] then (t, false)
    else
      var (t1, raised) := Run(t, body[0]);
      if raised then (t1, true) else RunAll(t1, body[1..])
  }

  /** `perform` takes the waiting events out of the buffer before it does anything with them. */
  function Taken(t: Thread, fate: Fate): Thread {
    t.(waiting := [], dispatched := t.dispatched + [Dispatch(t.handle, t.waiting, fate)])
  }

  function FateOf(fault: Fault): Fate {
    match fault
    case BeforeBackends => Lost
    case AtJobs => Interrupted
    case _ => HandedOn
  }

  /** `TransactionDispatcher.commit` */
  function Commit(t: Thread, backends: seq<Code>, fault: Fault): (r: (Thread, bool))
    decreases backends, 1
  {
    if fault.AtStart? then (t, true)
    else if t.importMode then (t, false)
    else if fault.BeforeBackends? then (Taken(t, Lost), true)
    else if t.waiting == [] then (Taken(t, HandedOn), false)
    else (RunBackends(Taken(t, FateOf(fault)), backends), fault.AtJobs?)
  }

  /** Each backend runs without a user; its exceptions are only logged. */
  function RunBackends(t: Thread, backends: seq<Code>): Thread
    decreases backends, 0
  {
    if backends == [] then t
    else RunBackends(RunAll(t.(userId := None), backends[0].body).0, backends[1..])
  }

  // ----- The program, on a thread's state in place -----

  const TRANSACTION := "transaction"

  class ThreadState {
    var userId: Option<int>
    var bulk: bool
    var handle: Option<string>
    var context: Option<string>
    var pushes: Option<seq<Message>>
    var delivered: seq<Message>
    var dispatched: seq<Dispatch>
    var seen: seq<Sight>
    const importMode: bool
    const buffer: EventBuffer<Event>

    constructor (importMode: bool)
      ensures View() == Thread(None, false, None, None, None, [], importMode, [], [], [])
      ensures fresh(buffer)
    {
      userId, bulk, handle, context, pushes := None, false, None, None, None;
      delivered, dispatched, seen := [], [], [];
      this.importMode := importMode;
      buffer := new EventBuffer<Event>();
    }

    function View(): Thread
      reads this, buffer
    {
      Thread(userId, bulk, handle, context, pushes, buffer.Waiting(TRANSACTION), importMode, delivered, dispatched,
             seen)
    }

    /** `PushMessages.send` and `send_to` */
    method Push(m: Message)
      modifies this
      ensures View() == Pushed(old(View()), m)
    {
      if pushes.None? {
        delivered := delivered + [m];
        return;
      }
      pushes := Some(pushes.value + [m]);
    }

    /** `PushMessages.finish` */
    method Finish(failing: Option<nat>) returns (ok: bool, raised: bool)
      modifies this
      ensures (View(), raised) == Delivering(old(View()), failing)
      ensures ok == (old(pushes.Some?) && !raised)
    {
      if pushes.None? {
        return false, false;
      }
      var messages := pushes.value;
      for i := 0 to |messages|
        invariant View() == old(View()).(delivered := old(delivered) + messages[..i])
        invariant failing.Some? ==> i <= failing.value
      {
        if failing == Some(i) {
          return false, true;
        }
        delivered := delivered + [messages[i]];
        assert messages[..i + 1] == messages[..i] + [messages[i]];
      }
      assert messages[..|messages|] == messages;
      pushes := None;
      return true, false;
    }

    method RunAction(a: Action) returns (raised: bool)
      modifies this, buffer
      ensures (View(), raised) == Run(old(View()), a)
      decreases a, 1
    {
      match a
      case Send(m) =>
        Push(m);
        raised := false;
      case Record(e) =>
        if !importMode {
          buffer.Add(TRANSACTION, e);
        }
        raised := false;
      case Look =>
        seen := seen + [Sight(userId, bulk, handle, context)];
        raised := false;
      case Raise =>
        raised := true;
      case Rescue(body) =>
        var _ := RunBody(body);
        raised := false;
      case Execute(_, _, _, _, _) =>
        raised := ExecuteBlock(a);
    }

    method RunBody(body: seq<Action>) returns (raised: bool)
      modifies this, buffer
      ensures (View(), raised) == RunAll(old(View()), body)
      decreases body, 0
    {
      if body == [] {
        return false;
      }
      raised := RunAction(body[0]);
      if !raised {
        raised := RunBody(body[1..]);
      }
    }

    /** `start_execute` */
    method Enter(o: Options)
      modifies this
      ensures View() == Entered(old(View()), o)
    {
      if o.resetUserId { userId := Some(1); }
      if o.bulk { bulk := true; }
      if o.handle.Some? { handle := o.handle; }
      if o.context.Some? { context := o.context; }
    }

    /** `PushMessages.init` */
    method Init()
      modifies this
      ensures View() == Opened(old(View()))
    {
      if pushes.None? { pushes := Some([]); }
    }

    /** `execute`, with what its start methods have saved in the Transaction object. */
    method ExecuteBlock(a: Action) returns (raised: bool)
      requires a.Execute?
      modifies this, buffer
      ensures (View(), raised) == Run(old(View()), a)
      decreases a, 0
    {
      var o := a.options;
      ghost var was := View();
      var originalUserId, originalHandle, originalContext := userId, handle, context;
      Enter(o);
      Init();
      raised := RunBody(a.body);
      var refused := FinishBlock(o, originalHandle, originalContext, was, a.backends, a.fault, a.failing);
      Leave(o, originalUserId, was);
      raised := raised || refused;
    }

    method FinishBlock(o: Options, originalHandle: Option<string>, originalContext: Option<string>,
                       ghost was: Thread, backends: seq<Code>, fault: Fault, failing: Option<nat>)
      returns (refused: bool)
      requires originalHandle == was.handle && originalContext == was.context
      modifies this, buffer
      ensures (View(), refused) == FinishTransaction(old(View()), was, o, backends, fault, failing)
      decreases backends, 2
    {
      if o.handle.Some? { handle := originalHandle; }
      if o.context.Some? { context := originalContext; }
      assert View() == InterfaceRestored(old(View()), was, o);
      refused := CommitBlock(backends, fault);
      if !refused {
        var ok, broken := Finish(failing);
        refused := broken;
      }
    }

    /** `finish_execute` */
    method Leave(o: Options, originalUserId: Option<int>, ghost was: Thread)
      requires originalUserId == was.userId
      modifies this
      ensures View() == Left(old(View()), was, o)
    {
      if o.resetUserId { userId := originalUserId; }
      if o.bulk { bulk := false; }
    }

    method CommitBlock(backends: seq<Code>, fault: Fault) returns (raised: bool)
      modifies this, buffer
      ensures (View(), raised) == Commit(old(View()), backends, fault)
      decreases backends, 1
    {
      if fault.AtStart? {
        return true;
      }
      if importMode {
        return false;
      }
      var events := buffer.List(TRANSACTION);
      buffer.Reset(TRANSACTION);
      if fault.BeforeBackends? {
        dispatched := dispatched + [Dispatch(handle, events, Lost)];
        return true;
      }
      if events == [] {
        dispatched := dispatched + [Dispatch(handle, events, HandedOn)];
        return false;
      }
      dispatched := dispatched + [Dispatch(handle, events, FateOf(fault))];
      CallBackends(backends);
      return fault.AtJobs?;
    }

    method CallBackends(backends: seq<Code>)
      modifies this, buffer
      ensures View() == RunBackends(old(View()), backends)
      decreases backends, 0
    {
      if backends == [] {
        return;
      }
      userId := None;
      var _ := RunBody(backends[0].body);
      CallBackends(backends[1..]);
    }
  }
}
