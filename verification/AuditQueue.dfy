/**
 Overlapping appends: the promises that make them wait for each other.

 A call captures the promise in `writeChain`, asks for its own work to run once that one is
 fulfilled, and puts in its place a tail that settles after the work has. Nothing here says that
 only one call runs or in what order: calls, starts, lookups, finished writes and settling tails may
 come in any order, for any call, and what the captured promises allow is proved.

 `caught` says whether the tail also turns a failure of the work into success, as it does in the
 program; without that the tail would be rejected, and so would every call behind it.
 */
module AuditQueue {
  import opened Wrappers
  import opened AuditChain
  import opened AuditText
  import opened AuditLog

  datatype Settlement = Pending | Fulfilled | Rejected

  /** The work of one call; `Writing` holds the record built before the write, which is pushed after it. */
  datatype Stage<C> =
    | Waiting
    | Started
    | Writing(record: Record<C>)
    | Served(atMs: int, diskOk: bool, outcome: Outcome<C>)
    | Skipped

  /** `after` is the promise it waits for and `tail` the one it left in `writeChain`. */
  datatype Call<C> = Call(item: C, after: nat, tail: nat, stage: Stage<C>)

  /** `served` is a history: the calls in the order in which their work settled. */
  datatype Chain<C> = Chain(store: Holding<C>, promises: seq<Settlement>, writeChain: nat, calls: seq<Call<C>>,
                            served: seq<nat>)

  datatype Event<C> =
    Invoke(item: C) | Start(k: nat) | Look(k: nat, nowMs: int) | WriteDone(k: nat, ok: bool) | Settle(k: nat)

  function NewChain<C>(store: Holding<C>): Chain<C>
  {
    Chain(store, [Fulfilled], 0, [], [])
  }

  function PromiseAt<C>(q: Chain<C>, id: nat): Settlement
  {
    if id < |q.promises| then q.promises[id] else Pending
  }

  predicate Over<C>(stage: Stage<C>)
  {
    stage.Served? || stage.Skipped?
  }

  predicate Fails<C>(outcome: Outcome<C>)
  {
    outcome.Conflict? || outcome.WriteFailed? || outcome.LoadFailed?
  }

  predicate Failed<C>(stage: Stage<C>)
  {
    stage.Served? && Fails(stage.outcome)
  }

  // ---------------------------------------------------------------- steps

  function Go<C>(q: Chain<C>, k: nat, stage: Stage<C>): Chain<C>
    requires k < |q.calls|
  {
    q.(calls := q.calls[k := q.calls[k].(stage := stage)],
       served := if Over(stage) then q.served + [k] else q.served)
  }

  /** The callback runs when the captured promise is fulfilled, and is passed over when it is rejected. */
  function Begin<C>(q: Chain<C>, k: nat): Chain<C>
    requires k < |q.calls|
  {
    match PromiseAt(q, q.calls[k].after)
    case Pending => q
    case Fulfilled => Go(q, k, Started)
    case Rejected => Go(q, k, Skipped)
  }

  /** The store is loaded if it was not, the key looked up and the record built, with nothing in between. */
  function LookUp<C>(s: Setting<C>, q: Chain<C>, k: nat, nowMs: int): Chain<C>
    requires k < |q.calls|
  {
    var item := q.calls[k].item;
    var (st, error) := Opened(s, q.store);
    var now := q.(store := st);
    if error.Some? then Go(now, k, Served(nowMs, true, LoadFailed(error.value)))
    else
      var existing := Latest(s.sch, st.log.records, s.sch.key(item));
      var r := NewRecord(s, st.log.records, item, nowMs);
      if existing.Some? then Go(now, k, Served(nowMs, true, Answer(s.sch, existing.value, item)))
      else if s.durable then Go(now, k, Writing(r))
      else Go(Push(s, now, r), k, Served(nowMs, true, Created(r)))
  }

  function Push<C>(s: Setting<C>, q: Chain<C>, r: Record<C>): Chain<C>
  {
    q.(store := q.store.(log := Written(s, q.store.log, r)))
  }

  function EndWrite<C>(s: Setting<C>, q: Chain<C>, k: nat, ok: bool): Chain<C>
    requires k < |q.calls| && q.calls[k].stage.Writing?
  {
    var r := q.calls[k].stage.record;
    if ok then Go(Push(s, q, r), k, Served(r.atMs, true, Created(r)))
    else Go(q, k, Served(r.atMs, false, WriteFailed))
  }

  /** What a tail comes to once the work has settled. */
  function TailOf<C>(caught: bool, stage: Stage<C>): Settlement
  {
    if caught || !(stage.Skipped? || Failed(stage)) then Fulfilled else Rejected
  }

  function EndTail<C>(caught: bool, q: Chain<C>, k: nat): Chain<C>
    requires k < |q.calls|
  {
    var tail := q.calls[k].tail;
    if tail < |q.promises| && q.promises[tail].Pending?
    then q.(promises := q.promises[tail := TailOf(caught, q.calls[k].stage)])
    else q
  }

  function Ask<C>(q: Chain<C>, item: C): Chain<C>
  {
    var tail := |q.promises|;
    q.(promises := q.promises + [Pending], writeChain := tail,
       calls := q.calls + [Call(item, q.writeChain, tail, Waiting)])
  }

  /** One event; an event that cannot happen now changes nothing. */
  function React<C>(s: Setting<C>, caught: bool, q: Chain<C>, e: Event<C>): Chain<C>
  {
    match e
    case Invoke(item) => Ask(q, item)
    case Start(k) => if k < |q.calls| && q.calls[k].stage.Waiting? then Begin(q, k) else q
    case Look(k, nowMs) => if k < |q.calls| && q.calls[k].stage.Started? then LookUp(s, q, k, nowMs) else q
    case WriteDone(k, ok) => if k < |q.calls| && q.calls[k].stage.Writing? then EndWrite(s, q, k, ok) else q
    case Settle(k) => if k < |q.calls| && Over(q.calls[k].stage) then EndTail(caught, q, k) else q
  }

  function Run<C>(s: Setting<C>, caught: bool, q: Chain<C>, events: seq<Event<C>>): Chain<C>
    decreases |events|
  {
    if events == [] then q else Run(s, caught, React(s, caught, q, events[0]), events[1..])
  }

  function Items<C>(calls: seq<Call<C>>): seq<C>
  {
    seq(|calls|, i requires 0 <= i < |calls| => calls[i].item)
  }

  function Invoked<C>(events: seq<Event<C>>): seq<C>
  {
    if events == [] then [] else Called(events[0]) + Invoked(events[1..])
  }

  function Called<C>(e: Event<C>): seq<C>
  {
    if e.Invoke? then [e.item] else []
  }

  // ---------------------------------------------------------------- one at a time

  /** Each call waits for the tail of the one before it, and the last tail is the one to wait for next. */
  ghost predicate Linked<C>(q: Chain<C>)
  {
    && |q.promises| == |q.calls| + 1 && q.writeChain == |q.calls|
    && q.promises[0] == Fulfilled
    && (forall k :: 0 <= k < |q.calls| ==> q.calls[k].after == k && q.calls[k].tail == k + 1)
  }

  /** A tail settles after its work, and work begins after the tail before it. */
  ghost predicate InTurn<C>(caught: bool, q: Chain<C>, k: nat)
    requires k < |q.calls| && |q.promises| == |q.calls| + 1
  {
    var stage := q.calls[k].stage;
    && (q.promises[k + 1] != Pending ==> Over(stage) && q.promises[k + 1] == TailOf(caught, stage))
    && (stage.Skipped? ==> q.promises[k] == Rejected)
    && (!stage.Skipped? && !stage.Waiting? ==> q.promises[k] == Fulfilled)
  }

  /** The work settled so far is that of the first calls, in the order of the calls. */
  ghost predicate ServedInOrder<C>(q: Chain<C>)
  {
    && |q.served| <= |q.calls|
    && (forall i :: 0 <= i < |q.served| ==> q.served[i] == i)
    && (forall k :: 0 <= k < |q.calls| ==> (Over(q.calls[k].stage) <==> k < |q.served|))
  }

  ghost predicate Inv<C>(caught: bool, q: Chain<C>)
  {
    && Linked(q)
    && (forall k :: 0 <= k < |q.calls| ==> InTurn(caught, q, k))
    && ServedInOrder(q)
  }

  /** A call that has begun has everything before it behind it. */
  lemma BegunIsNext<C>(caught: bool, q: Chain<C>, k: nat)
    requires Inv(caught, q) && k < |q.calls| && q.promises[k] != Pending
    ensures k <= |q.served|
    ensures !Over(q.calls[k].stage) ==> k == |q.served|
  {
    assert InTurn(caught, q, k);
    if k > 0 {
      assert InTurn(caught, q, k - 1);
    }
  }

  lemma GoKeepsInv<C>(caught: bool, q: Chain<C>, k: nat, stage: Stage<C>)
    requires Inv(caught, q) && k < |q.calls| && !Over(q.calls[k].stage) && !stage.Waiting?
    requires q.promises[k] == if stage.Skipped? then Rejected else Fulfilled
    ensures Inv(caught, Go(q, k, stage))
  {
    var after := Go(q, k, stage);
    BegunIsNext(caught, q, k);
    forall j | 0 <= j < |after.calls| ensures InTurn(caught, after, j) {
      assert InTurn(caught, q, j);
    }
  }

  lemma StoreFree<C>(caught: bool, q: Chain<C>, store: Holding<C>)
    requires Inv(caught, q)
    ensures Inv(caught, q.(store := store))
  {
    var after := q.(store := store);
    forall j | 0 <= j < |after.calls| ensures InTurn(caught, after, j) {
      assert InTurn(caught, q, j);
    }
  }

  lemma AskKeepsInv<C>(caught: bool, q: Chain<C>, item: C)
    requires Inv(caught, q)
    ensures Inv(caught, Ask(q, item))
  {
    var after := Ask(q, item);
    forall j | 0 <= j < |after.calls| ensures InTurn(caught, after, j) {
      if j < |q.calls| {
        assert InTurn(caught, q, j);
      }
    }
  }

  lemma EndTailKeepsInv<C>(caught: bool, q: Chain<C>, k: nat)
    requires Inv(caught, q) && k < |q.calls| && Over(q.calls[k].stage)
    ensures Inv(caught, EndTail(caught, q, k))
  {
    var after := EndTail(caught, q, k);
    forall j | 0 <= j < |after.calls| ensures InTurn(caught, after, j) {
      assert InTurn(caught, q, j);
    }
  }

  lemma LookUpKeepsInv<C>(s: Setting<C>, caught: bool, q: Chain<C>, k: nat, nowMs: int)
    requires Inv(caught, q) && k < |q.calls| && q.calls[k].stage.Started?
    ensures Inv(caught, LookUp(s, q, k, nowMs))
  {
    assert InTurn(caught, q, k);
    var after := LookUp(s, q, k, nowMs);
    StoreFree(caught, q, after.store);
    GoKeepsInv(caught, q.(store := after.store), k, after.calls[k].stage);
  }

  lemma EndWriteKeepsInv<C>(s: Setting<C>, caught: bool, q: Chain<C>, k: nat, ok: bool)
    requires Inv(caught, q) && k < |q.calls| && q.calls[k].stage.Writing?
    ensures Inv(caught, EndWrite(s, q, k, ok))
  {
    assert InTurn(caught, q, k);
    var after := EndWrite(s, q, k, ok);
    StoreFree(caught, q, after.store);
    GoKeepsInv(caught, q.(store := after.store), k, after.calls[k].stage);
  }

  lemma ReactKeepsInv<C>(s: Setting<C>, caught: bool, q: Chain<C>, e: Event<C>)
    requires Inv(caught, q)
    ensures Inv(caught, React(s, caught, q, e))
  {
    match e
    case Invoke(item) => AskKeepsInv(caught, q, item);
    case Start(k) =>
      if k < |q.calls| && q.calls[k].stage.Waiting? && q.promises[k] != Pending {
        GoKeepsInv(caught, q, k, if q.promises[k] == Fulfilled then Started else Skipped);
      }
    case Look(k, nowMs) =>
      if k < |q.calls| && q.calls[k].stage.Started? {
        LookUpKeepsInv(s, caught, q, k, nowMs);
      }
    case WriteDone(k, ok) =>
      if k < |q.calls| && q.calls[k].stage.Writing? {
        EndWriteKeepsInv(s, caught, q, k, ok);
      }
    case Settle(k) =>
      if k < |q.calls| && Over(q.calls[k].stage) {
        EndTailKeepsInv(caught, q, k);
      }
  }

  lemma {:induction false} RunKeepsInv<C>(s: Setting<C>, caught: bool, q: Chain<C>, events: seq<Event<C>>)
    requires Inv(caught, q)
    ensures Inv(caught, Run(s, caught, q, events))
    decreases |events|
  {
    if events != [] {
      ReactKeepsInv(s, caught, q, events[0]);
      RunKeepsInv(s, caught, React(s, caught, q, events[0]), events[1..]);
    }
  }

  lemma ReactKeepsItems<C>(s: Setting<C>, caught: bool, q: Chain<C>, e: Event<C>)
    ensures Items(React(s, caught, q, e).calls) == Items(q.calls) + Called(e)
  {
    var after := React(s, caught, q, e);
    assert forall i :: 0 <= i < |q.calls| ==> after.calls[i].item == q.calls[i].item;
  }

  lemma InOrder<C>(a: seq<C>, b: seq<C>, c: seq<C>)
    ensures (a + b) + c == a + (b + c)
  {}

  lemma {:induction false} RunKeepsItems<C>(s: Setting<C>, caught: bool, q: Chain<C>, events: seq<Event<C>>)
    ensures Items(Run(s, caught, q, events).calls) == Items(q.calls) + Invoked(events)
    decreases |events|
  {
    if events != [] {
      var e, rest := events[0], events[1..];
      ReactKeepsItems(s, caught, q, e);
      RunKeepsItems(s, caught, React(s, caught, q, e), rest);
      InOrder(Items(q.calls), Called(e), Invoked(rest));
    }
  }

  /**
   Mutual exclusion and call order, over every run, with or without the rejection handler: once a
   call has begun all calls before it are over, so at most one is under way; work settles in the
   order of the calls; and no call is lost.
   */
  lemma OneAtATime<C>(s: Setting<C>, caught: bool, store: Holding<C>, events: seq<Event<C>>)
    ensures var q := Run(s, caught, NewChain(store), events);
      && Items(q.calls) == Invoked(events)
      && (forall i, j :: 0 <= i < j < |q.calls| && !q.calls[j].stage.Waiting? ==> Over(q.calls[i].stage))
      && (forall i :: 0 <= i < |q.served| ==> q.served[i] == i)
      && (forall k :: 0 <= k < |q.calls| ==> (Over(q.calls[k].stage) <==> k in q.served))
  {
    var q := Run(s, caught, NewChain(store), events);
    RunKeepsInv(s, caught, NewChain(store), events);
    RunKeepsItems(s, caught, NewChain(store), events);
    forall i, j | 0 <= i < j < |q.calls| && !q.calls[j].stage.Waiting? ensures Over(q.calls[i].stage) {
      assert InTurn(caught, q, j);
      BegunIsNext(caught, q, j);
    }
    forall k | 0 <= k < |q.calls| ensures Over(q.calls[k].stage) <==> k in q.served {
      if k < |q.served| {
        assert q.served[k] == k;
      }
    }
  }

  // ---------------------------------------------------------------- a failure and the calls behind it

  ghost predicate FailedBefore<C>(q: Chain<C>, j: nat)
    requires j <= |q.calls|
  {
    exists i :: 0 <= i < j && Failed(q.calls[i].stage)
  }

  lemma {:induction false} SkippedWhen<C>(caught: bool, q: Chain<C>, j: nat)
    requires Inv(caught, q) && j < |q.calls| && Over(q.calls[j].stage)
    ensures q.calls[j].stage.Skipped? <==> !caught && FailedBefore(q, j)
    decreases j
  {
    assert InTurn(caught, q, j);
    if j > 0 {
      assert InTurn(caught, q, j - 1);
      SkippedWhen(caught, q, j - 1);
      assert FailedBefore(q, j) <==> FailedBefore(q, j - 1) || Failed(q.calls[j - 1].stage);
    }
  }

  /**
   What the rejection handler is for: a call that is over was passed over without being served
   exactly when there is no handler and some call before it failed. With the handler none ever is.
   */
  lemma SkippedExactly<C>(s: Setting<C>, caught: bool, store: Holding<C>, events: seq<Event<C>>, j: nat)
    requires j < |Run(s, caught, NewChain(store), events).calls|
    requires Over(Run(s, caught, NewChain(store), events).calls[j].stage)
    ensures var q := Run(s, caught, NewChain(store), events);
      q.calls[j].stage.Skipped? <==> !caught && FailedBefore(q, j)
  {
    RunKeepsInv(s, caught, NewChain(store), events);
    SkippedWhen(caught, Run(s, caught, NewChain(store), events), j);
  }

  // ---------------------------------------------------------------- everything settles

  function StageWork<C>(stage: Stage<C>): nat
  {
    match stage
    case Waiting => 3
    case Started => 2
    case Writing(_) => 1
    case Served(_, _, _) => 0
    case Skipped => 0
  }

  function CallWork<C>(calls: seq<Call<C>>): nat
  {
    if calls == [] then 0 else StageWork(calls[0].stage) + CallWork(calls[1..])
  }

  function Open(promises: seq<Settlement>): nat
  {
    if promises == [] then 0 else (if promises[0].Pending? then 1 else 0) + Open(promises[1..])
  }

  /** Steps still to be made. */
  function Work<C>(q: Chain<C>): nat
  {
    CallWork(q.calls) + Open(q.promises)
  }

  lemma {:induction false} CallWorkUpdate<C>(calls: seq<Call<C>>, k: nat, c: Call<C>)
    requires k < |calls|
    ensures CallWork(calls[k := c]) + StageWork(calls[k].stage) == CallWork(calls) + StageWork(c.stage)
    decreases |calls|
  {
    if k > 0 {
      assert calls[k := c][1..] == calls[1..][k - 1 := c];
      CallWorkUpdate(calls[1..], k - 1, c);
    } else {
      assert calls[k := c][1..] == calls[1..];
    }
  }

  lemma {:induction false} OpenUpdate(promises: seq<Settlement>, k: nat, p: Settlement)
    requires k < |promises| && promises[k].Pending? && !p.Pending?
    ensures Open(promises[k := p]) + 1 == Open(promises)
    decreases |promises|
  {
    if k > 0 {
      assert promises[k := p][1..] == promises[1..][k - 1 := p];
      OpenUpdate(promises[1..], k - 1, p);
    } else {
      assert promises[k := p][1..] == promises[1..];
    }
  }

  lemma GoWorks<C>(q: Chain<C>, k: nat, stage: Stage<C>)
    requires k < |q.calls| && StageWork(stage) < StageWork(q.calls[k].stage)
    ensures Work(Go(q, k, stage)) < Work(q)
  {
    CallWorkUpdate(q.calls, k, q.calls[k].(stage := stage));
  }

  lemma EventWorks<C>(s: Setting<C>, caught: bool, q: Chain<C>, e: Event<C>)
    requires !e.Invoke? && React(s, caught, q, e) != q
    ensures Work(React(s, caught, q, e)) < Work(q)
  {
    var after := React(s, caught, q, e);
    if e.Settle? {
      OpenUpdate(q.promises, q.calls[e.k].tail, after.promises[q.calls[e.k].tail]);
    } else {
      GoWorks(q, e.k, after.calls[e.k].stage);
    }
  }

  /** Every event changed something and none was a new call. */
  ghost predicate Working<C>(s: Setting<C>, caught: bool, q: Chain<C>, events: seq<Event<C>>)
    decreases |events|
  {
    events != [] ==>
      var next := React(s, caught, q, events[0]);
      !events[0].Invoke? && next != q && Working(s, caught, next, events[1..])
  }

  ghost predicate AtRest<C(!new)>(s: Setting<C>, caught: bool, q: Chain<C>)
  {
    forall e: Event<C> :: !e.Invoke? ==> React(s, caught, q, e) == q
  }

  lemma {:induction false} WorkBounds<C>(s: Setting<C>, caught: bool, q: Chain<C>, events: seq<Event<C>>)
    requires Working(s, caught, q, events)
    ensures |events| + Work(Run(s, caught, q, events)) <= Work(q)
    decreases |events|
  {
    if events != [] {
      EventWorks(s, caught, q, events[0]);
      WorkBounds(s, caught, React(s, caught, q, events[0]), events[1..]);
    }
  }

  /** While a call is not over, something can happen to it or to the tail it waits for. */
  lemma NotAtRest<C(!new)>(s: Setting<C>, caught: bool, q: Chain<C>)
    requires Inv(caught, q) && |q.served| < |q.calls|
    ensures !AtRest(s, caught, q)
  {
    var n := |q.served|;
    assert InTurn(caught, q, n);
    if q.promises[n] == Pending {
      assert React(s, caught, q, Settle(n - 1)) != q;
    } else {
      var stage := q.calls[n].stage;
      var e: Event<C> :=
        if stage.Waiting? then Start(n) else if stage.Started? then Look(n, 0) else WriteDone(n, false);
      assert React(s, caught, q, e).calls[n].stage != stage;
    }
  }

  lemma RestIsOver<C(!new)>(s: Setting<C>, caught: bool, q: Chain<C>)
    requires Inv(caught, q) && AtRest(s, caught, q)
    ensures |q.served| == |q.calls| && Pending !in q.promises
  {
    if |q.served| < |q.calls| {
      NotAtRest(s, caught, q);
    }
    forall i | 0 <= i < |q.promises| ensures q.promises[i] != Pending {
      if i > 0 {
        assert React(s, caught, q, Settle(i - 1)) == q;
      }
    }
  }

  /**
   Nothing is held up: from any state a run leads to, steps other than new calls can only be made as
   often as there is work left, whatever their order and whatever the disk does, and when none can
   be made any more every call is over and every promise settled; with the handler, every call was served.
   */
  lemma EverythingSettles<C(!new)>(s: Setting<C>, caught: bool, store: Holding<C>, events: seq<Event<C>>,
                                   more: seq<Event<C>>)
    requires Working(s, caught, Run(s, caught, NewChain(store), events), more)
    ensures var q := Run(s, caught, NewChain(store), events);
      var after := Run(s, caught, q, more);
      && |more| <= Work(q)
      && (AtRest(s, caught, after) ==>
        && Pending !in after.promises
        && (forall k :: 0 <= k < |after.calls| ==> Over(after.calls[k].stage))
        && (caught ==> forall k :: 0 <= k < |after.calls| ==> after.calls[k].stage.Served?))
  {
    var q := Run(s, caught, NewChain(store), events);
    RunKeepsInv(s, caught, NewChain(store), events);
    WorkBounds(s, caught, q, more);
    RunKeepsInv(s, caught, q, more);
    var after := Run(s, caught, q, more);
    if AtRest(s, caught, after) {
      RestIsOver(s, caught, after);
      forall k | 0 <= k < |after.calls|
        ensures Over(after.calls[k].stage) && (caught ==> after.calls[k].stage.Served?)
      {
        SkippedWhen(caught, after, k);
      }
    }
  }
}
