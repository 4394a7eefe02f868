/**
 What the code inside nested transaction blocks finds when it asks for the interface handle, the context, the user and
 the bulk flag, and which handle each dispatch carries: the blocks that are open around it decide.
 */
module TransactionScopes {
  import opened Prelude
  import opened Transactions
  import opened TransactionLaws

  // ----- The open blocks -----

  /** The handle of the innermost open block that gives one, and the thread's own if none does. */
  function HandleIn(own: Option<string>, open: seq<Options>): Option<string> {
    if open == [] then own
    else if open[|open| - 1].handle.Some? then open[|open| - 1].handle
    else HandleIn(own, open[..|open| - 1])
  }

  function ContextIn(own: Option<string>, open: seq<Options>): Option<string> {
    if open == [] then own
    else if open[|open| - 1].context.Some? then open[|open| - 1].context
    else ContextIn(own, open[..|open| - 1])
  }

  /** User 1 in a block that resets the user id, and nobody once a backend has run since the innermost one began. */
  function UserIn(own: Option<int>, open: seq<Options>, lost: bool): Option<int> {
    if lost then None
    else if exists k :: 0 <= k < |open| && open[k].resetUserId then Some(1)
    else own
  }

  /** On in a bulk block, until another one has ended since the innermost one began. */
  predicate BulkIn(own: bool, open: seq<Options>, ended: bool) {
    !ended && (own || exists k :: 0 <= k < |open| && open[k].bulk)
  }

  /**
   What has been seen and dispatched; `lost` and `ended` say whether a backend has run since the innermost resetting
   block began, and whether a bulk block has ended since the innermost one began.
   */
  datatype Notes = Notes(seen: seq<Sight>, handles: seq<Option<string>>, lost: bool, ended: bool)

  /** `own` is what the thread has outside all blocks. */
  function SightIn(own: Sight, open: seq<Options>, n: Notes): Sight {
    Sight(UserIn(own.userId, open, n.lost), BulkIn(own.bulk, open, n.ended),
          HandleIn(own.handle, open), ContextIn(own.context, open))
  }

  // ----- What is seen, block by block -----

  /** At its end a block no longer counts for handle and context, but still for the user and the bulk flag. */
  function Ending(o: Options): Options {
    o.(handle := None, context := None)
  }

  function Told(own: Sight, open: seq<Options>, i: Ideal, n: Notes, a: Action): Notes
    requires Proper(i)
    decreases a, 0
  {
    match a
    case Look => n.(seen := n.seen + [SightIn(own, open, n)])
    case Rescue(body) => ToldAll(own, open, i, n, body)
    case Execute(o, body, backends, fault, _) =>
      var n0 := n.(lost := n.lost && !o.resetUserId, ended := n.ended && !o.bulk);
      var n1 := ToldAll(own, open + [o], Marked(i), n0, body);
      var n2 := ToldCommit(own, open + [Ending(o)], DirectAll(Marked(i), body).0, n1, backends, fault);
      n2.(lost := if o.resetUserId then n.lost else n2.lost, ended := n2.ended || o.bulk)
    case _ => n
  }

  function ToldAll(own: Sight, open: seq<Options>, i: Ideal, n: Notes, body: seq<Action>): Notes
    requires Proper(i)
    decreases body, 0
  {
    if body == [] then n
    else
      var n1 := Told(own, open, i, n, body[0]);
      if Direct(i, body[0]).1 then n1 else ToldAll(own, open, Direct(i, body[0]).0, n1, body[1..])
  }

  /** The handle is read when the commit begins, and the backends of waiting events run in the same surroundings. */
  function ToldCommit(own: Sight, open: seq<Options>, i: Ideal, n: Notes, backends: seq<Code>, fault: Fault): Notes
    requires Proper(i)
    decreases backends, 1
  {
    if fault.AtStart? || i.importMode then n
    else
      var n1 := n.(handles := n.handles + [HandleIn(own.handle, open)]);
      if fault.BeforeBackends? || i.taken == |i.recorded| then n1
      else
        var handed := if fault.NoFault? then i.handed + i.recorded[i.taken..] else i.handed;
        ToldBackends(own, open, AllTaken(i).(handed := handed), n1, backends)
  }

  function ToldBackends(own: Sight, open: seq<Options>, i: Ideal, n: Notes, backends: seq<Code>): Notes
    requires Proper(i)
    decreases backends, 0
  {
    if backends == [] then n
    else
      ToldBackends(own, open, DirectAll(i, backends[0].body).0,
                   ToldAll(own, open, i, n.(lost := true), backends[0].body), backends[1..])
  }

  // ----- The program sees the same -----

  function HandlesOf(ds: seq<Dispatch>): seq<Option<string>> {
    seq(|ds|, k requires 0 <= k < |ds| => ds[k].handle)
  }

  predicate Sees(t: Thread, own: Sight, open: seq<Options>, n: Notes) {
    SightOf(t) == SightIn(own, open, n) && t.seen == n.seen && HandlesOf(t.dispatched) == n.handles
  }

  lemma Enters(t: Thread, own: Sight, open: seq<Options>, n: Notes, o: Options)
    requires Sees(t, own, open, n)
    ensures Sees(Opened(Entered(t, o)), own, open + [o],
                 n.(lost := n.lost && !o.resetUserId, ended := n.ended && !o.bulk))
  {
    var more := open + [o];
    assert more[..|open|] == open && more[|open|] == o;
    assert forall k :: 0 <= k < |open| ==> more[k] == open[k];
    assert o.resetUserId ==> more[|open|].resetUserId;
    assert o.bulk ==> more[|open|].bulk;
  }

  /** The end of a block that still counts for some things, or no longer. */
  lemma Restores(t: Thread, was: Thread, own: Sight, open: seq<Options>, n: Notes, o: Options)
    requires Sees(t, own, open + [o], n)
    requires was.handle == HandleIn(own.handle, open) && was.context == ContextIn(own.context, open)
    ensures Sees(InterfaceRestored(t, was, o), own, open + [Ending(o)], n)
  {
    var before, after := open + [o], open + [Ending(o)];
    assert before[..|open|] == open && after[..|open|] == open;
    assert forall k :: 0 <= k < |before| ==> before[k].resetUserId == after[k].resetUserId
                                             && before[k].bulk == after[k].bulk;
  }

  lemma Leaves(t: Thread, was: Thread, own: Sight, open: seq<Options>, n0: Notes, n: Notes, o: Options)
    requires Sees(was, own, open, n0) && Sees(t, own, open + [Ending(o)], n)
    ensures Sees(Left(t, was, o), own, open,
                 n.(lost := if o.resetUserId then n0.lost else n.lost, ended := n.ended || o.bulk))
  {
    var more := open + [Ending(o)];
    assert more[..|open|] == open && more[|open|] == Ending(o);
    assert forall k :: 0 <= k < |open| ==> more[k] == open[k];
  }

  /** From any thread, code sees what the open blocks around it say, and each dispatch carries what they say. */
  lemma {:induction false} RunSees(t: Thread, own: Sight, open: seq<Options>, i: Ideal, n: Notes, a: Action)
    requires Accounts(t, i) && Proper(i) && Sees(t, own, open, n)
    ensures Sees(Run(t, a).0, own, open, Told(own, open, i, n, a))
    decreases a, 1
  {
    match a
    case Rescue(body) => RunAllSees(t, own, open, i, n, body);
    case Execute(o, body, backends, fault, failing) =>
      BlockSees(t, own, open, i, n, a);
    case _ =>
  }

  lemma {:induction false} BlockSees(t: Thread, own: Sight, open: seq<Options>, i: Ideal, n: Notes, a: Action)
    requires Accounts(t, i) && Proper(i) && Sees(t, own, open, n) && a.Execute?
    ensures Sees(Run(t, a).0, own, open, Told(own, open, i, n, a))
    decreases a, 0
  {
    var Execute(o, body, backends, fault, failing) := a;
    var n0 := n.(lost := n.lost && !o.resetUserId, ended := n.ended && !o.bulk);
    OtherFieldsDoNotCount(t, Entered(t, o), i);
    Opening(Entered(t, o), i);
    Enters(t, own, open, n, o);
    RunAllSees(Opened(Entered(t, o)), own, open + [o], Marked(i), n0, body);
    RunAllAccounts(Opened(Entered(t, o)), Marked(i), body);
    var t1 := RunAll(Opened(Entered(t, o)), body).0;
    var n1 := ToldAll(own, open + [o], Marked(i), n0, body);
    FinishSees(t1, t, own, open, DirectAll(Marked(i), body).0, n1, a);
    var n2 := ToldCommit(own, open + [Ending(o)], DirectAll(Marked(i), body).0, n1, backends, fault);
    Leaves(FinishTransaction(t1, t, o, backends, fault, failing).0, t, own, open, n, n2, o);
  }

  /** The delivery of messages changes nothing that can be seen. */
  lemma FinishSeesWhatCommitLeaves(t: Thread, was: Thread, a: Action)
    requires a.Execute?
    ensures var t1 := Commit(InterfaceRestored(t, was, a.options), a.backends, a.fault).0;
      var t2 := FinishTransaction(t, was, a.options, a.backends, a.fault, a.failing).0;
      SightOf(t2) == SightOf(t1) && t2.seen == t1.seen && t2.dispatched == t1.dispatched
  {
  }

  lemma {:induction false} FinishSees(t: Thread, was: Thread, own: Sight, open: seq<Options>, i: Ideal, n: Notes,
                                      a: Action)
    requires a.Execute? && Accounts(t, i) && Proper(i) && Sees(t, own, open + [a.options], n)
    requires was.handle == HandleIn(own.handle, open) && was.context == ContextIn(own.context, open)
    ensures var t' := FinishTransaction(t, was, a.options, a.backends, a.fault, a.failing).0;
      var ending := open + [Ending(a.options)];
      Sees(t', own, ending, ToldCommit(own, ending, i, n, a.backends, a.fault))
    decreases a.backends, 2
  {
    var t1 := InterfaceRestored(t, was, a.options);
    Restores(t, was, own, open, n, a.options);
    OtherFieldsDoNotCount(t, t1, i);
    CommitSees(t1, own, open + [Ending(a.options)], i, n, a.backends, a.fault);
    FinishSeesWhatCommitLeaves(t, was, a);
  }

  lemma {:induction false} RunAllSees(t: Thread, own: Sight, open: seq<Options>, i: Ideal, n: Notes,
                                      body: seq<Action>)
    requires Accounts(t, i) && Proper(i) && Sees(t, own, open, n)
    ensures Sees(RunAll(t, body).0, own, open, ToldAll(own, open, i, n, body))
    decreases body, 0
  {
    if body != [] {
      RunSees(t, own, open, i, n, body[0]);
      RunAccounts(t, i, body[0]);
      if !Run(t, body[0]).1 {
        RunAllSees(Run(t, body[0]).0, own, open, Direct(i, body[0]).0, Told(own, open, i, n, body[0]), body[1..]);
      }
    }
  }

  lemma TakenSees(t: Thread, own: Sight, open: seq<Options>, n: Notes, fate: Fate)
    requires Sees(t, own, open, n)
    ensures Sees(Taken(t, fate), own, open, n.(handles := n.handles + [HandleIn(own.handle, open)]))
  {
    var ds := t.dispatched + [Dispatch(t.handle, t.waiting, fate)];
    assert HandlesOf(ds) == HandlesOf(t.dispatched) + [t.handle];
  }

  lemma {:induction false} CommitSees(t: Thread, own: Sight, open: seq<Options>, i: Ideal, n: Notes,
                                      backends: seq<Code>, fault: Fault)
    requires Accounts(t, i) && Proper(i) && Sees(t, own, open, n)
    ensures Sees(Commit(t, backends, fault).0, own, open, ToldCommit(own, open, i, n, backends, fault))
    decreases backends, 1
  {
    if !fault.AtStart? && !t.importMode {
      var n1 := n.(handles := n.handles + [HandleIn(own.handle, open)]);
      TakenSees(t, own, open, n, HandedOn);
      TakenSees(t, own, open, n, FateOf(fault));
      assert t.waiting == [] <==> i.taken == |i.recorded|;
      if !fault.BeforeBackends? && t.waiting != [] {
        Taking(t, i, FateOf(fault));
        var handed := if fault.NoFault? then i.handed + i.recorded[i.taken..] else i.handed;
        BackendsSee(Taken(t, FateOf(fault)), own, open, AllTaken(i).(handed := handed), n1, backends);
      }
    }
  }

  lemma {:induction false} BackendsSee(t: Thread, own: Sight, open: seq<Options>, i: Ideal, n: Notes,
                                       backends: seq<Code>)
    requires Accounts(t, i) && Proper(i) && Sees(t, own, open, n)
    ensures Sees(RunBackends(t, backends), own, open, ToldBackends(own, open, i, n, backends))
    decreases backends, 0
  {
    if backends != [] {
      var t0 := t.(userId := None);
      OtherFieldsDoNotCount(t, t0, i);
      RunAllSees(t0, own, open, i, n.(lost := true), backends[0].body);
      RunAllAccounts(t0, i, backends[0].body);
      BackendsSee(RunAll(t0, backends[0].body).0, own, open, DirectAll(i, backends[0].body).0,
                  ToldAll(own, open, i, n.(lost := true), backends[0].body), backends[1..]);
    }
  }

  /** The same from outside all blocks, whatever the thread has done before. */
  lemma OpenBlocksDecide(t: Thread, a: Action)
    ensures var own := SightOf(t);
      var n := Told(own, [], HistoryOf(t), Notes(t.seen, HandlesOf(t.dispatched), false, false), a);
      && Run(t, a).0.seen == n.seen
      && HandlesOf(Run(t, a).0.dispatched) == n.handles
      && SightOf(Run(t, a).0) == SightIn(own, [], n)
  {
    HistoryAccounts(t);
    RunSees(t, SightOf(t), [], HistoryOf(t), Notes(t.seen, HandlesOf(t.dispatched), false, false), a);
  }
}
