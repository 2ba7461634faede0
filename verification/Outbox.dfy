/**
 The outbox's operations run one after another: queueing, submitting, draining, clearing.

 `collate` is the locale's order of identifiers; `replies` says how the submission of each entry ends.
 */
module Outbox {
  import opened Wrappers
  import opened OutboxRecords
  import opened Sorting
  import Numbers

  // ---------------------------------------------------------------- order

  type Collate = (string, string) -> bool

  ghost predicate Collation(collate: Collate)
  {
    && TotalPreorder(collate)
    && forall a, b :: collate(a, b) && collate(b, a) ==> a == b
  }

  function Rank(priority: int): nat
  {
    if 1 <= priority <= 4 then priority - 1 else 9
  }

  predicate Before<R>(collate: Collate, a: Record<R>, b: Record<R>)
  {
    if Rank(a.priority) != Rank(b.priority) then Rank(a.priority) < Rank(b.priority)
    else if a.queuedAtMs != b.queuedAtMs then a.queuedAtMs < b.queuedAtMs
    else collate(a.contentId, b.contentId)
  }

  function ByUrgency<R>(collate: Collate): Order<Record<R>>
  {
    (a, b) => Before(collate, a, b)
  }

  function OrderOutbox<R>(collate: Collate, records: seq<Record<R>>): seq<Record<R>>
  {
    Sort(ByUrgency(collate), records)
  }

  predicate Known(priority: int)
  {
    1 <= priority <= 4
  }

  /**
   `a` is no later than `b`: known priorities come first, smaller ones earlier; in one priority, or among
   the unknown ones, the entry queued earlier; and at a tie the identifier decides.
   */
  predicate InTurn<R>(collate: Collate, a: Record<R>, b: Record<R>)
  {
    && (Known(b.priority) ==> Known(a.priority) && a.priority <= b.priority)
    && (a.priority == b.priority || (!Known(a.priority) && !Known(b.priority)) ==>
          && a.queuedAtMs <= b.queuedAtMs
          && (a.queuedAtMs == b.queuedAtMs ==> collate(a.contentId, b.contentId)))
  }

  lemma BeforeIsInTurn<R>(collate: Collate, a: Record<R>, b: Record<R>)
    ensures ByUrgency(collate)(a, b) <==> InTurn(collate, a, b)
  {}

  lemma SortedInTurn<R>(collate: Collate, rs: seq<Record<R>>)
    requires Sorted(ByUrgency(collate), rs)
    ensures forall i, j :: 0 <= i < j < |rs| ==> InTurn(collate, rs[i], rs[j])
  {
    forall i, j | 0 <= i < j < |rs| ensures InTurn(collate, rs[i], rs[j]) {
      BeforeIsInTurn(collate, rs[i], rs[j]);
    }
  }

  lemma UrgencyIsOrder<R(!new)>(collate: Collate)
    requires Collation(collate)
    ensures TotalPreorder<Record<R>>(ByUrgency(collate))
  {
    forall x: Record<R>, y: Record<R>, z: Record<R> | Before(collate, x, y) && Before(collate, y, z)
      ensures Before(collate, x, z)
    {
    }
  }

  /** Sorted by urgency, nothing lost or added; and the same for every storage order. */
  lemma OrderIsCanonical<R(!new)>(collate: Collate, records: seq<Record<R>>, others: seq<Record<R>>)
    requires Collation(collate) && UniqueIds(records) && multiset(records) == multiset(others)
    ensures Sorted(ByUrgency(collate), OrderOutbox(collate, records))
    ensures var ordered := OrderOutbox(collate, records);
      forall i, j :: 0 <= i < j < |ordered| ==> InTurn(collate, ordered[i], ordered[j])
    ensures multiset(OrderOutbox(collate, records)) == multiset(records)
    ensures OrderOutbox(collate, records) == OrderOutbox(collate, others)
  {
    UrgencyIsOrder<R>(collate);
    var le := ByUrgency<R>(collate);
    SortedPermutation(le, records);
    SortedPermutation(le, others);
    SortedInTurn(collate, OrderOutbox(collate, records));
    SameElements(le, records);
    forall x, y | x in Sort(le, records) && y in Sort(le, records) && Tie(le, x, y) ensures x == y {
      assert x.contentId == y.contentId;
      var i :| 0 <= i < |records| && records[i] == x;
      var j :| 0 <= j < |records| && records[j] == y;
    }
    SortedUnique(le, Sort(le, records), Sort(le, others));
  }

  // ---------------------------------------------------------------- draining

  type Replies<R> = string -> Reply<R>

  function Unreceipted<R>(stored: seq<Record<R>>): seq<Record<R>>
  {
    Keep(ReadAll(stored), (r: Record<R>) => !r.state.Receipted?)
  }

  /** The entries a drain attempts, in the order it attempts them. */
  function Due<R>(collate: Collate, stored: seq<Record<R>>, nowMs: int): seq<Record<R>>
  {
    Keep(OrderOutbox(collate, Unreceipted(stored)), (r: Record<R>) => r.nextAttemptAtMs <= nowMs)
  }

  function DeliverOne<R>(stored: seq<Record<R>>, record: Record<R>, reply: Reply<R>): seq<Record<R>>
  {
    Answered(Marked(stored, record), record, reply)
  }

  function DeliverAll<R>(stored: seq<Record<R>>, due: seq<Record<R>>, replies: Replies<R>): seq<Record<R>>
    decreases |due|
  {
    if due == [] then stored
    else DeliverAll(DeliverOne(stored, due[0], replies(due[0].contentId)), due[1..], replies)
  }

  function Tally<R>(due: seq<Record<R>>, p: Record<R> -> bool): nat
  {
    |Keep(due, p)|
  }

  function WasAccepted<R>(replies: Replies<R>): Record<R> -> bool
  {
    (r: Record<R>) => replies(r.contentId).Accepted?
  }

  function WasRefused<R>(replies: Replies<R>): Record<R> -> bool
  {
    (r: Record<R>) => replies(r.contentId).Refused?
  }

  function HasFailed<R>(replies: Replies<R>): Record<R> -> bool
  {
    (r: Record<R>) => replies(r.contentId).Failed?
  }

  /** `rejected` throws; `copiedTo` lists the audit services the certificate is forwarded to. */
  datatype Submission<R> =
    | Submitted(contentId: string, pending: bool, receipt: Option<R>, copiedTo: seq<string>)
    | Rejected

  datatype Drained = Drained(attempted: nat, receipted: nat, pending: nat, rejected: nat)

  function AuditServicesFor<R>(record: Record<R>): seq<string>
  {
    if record.priority == DIRECT then [] else record.auditServices
  }

  lemma DeliverNext<R>(stored: seq<Record<R>>, due: seq<Record<R>>, i: nat, replies: Replies<R>)
    requires i < |due|
    ensures DeliverAll(stored, due[i..], replies) ==
      DeliverAll(DeliverOne(stored, due[i], replies(due[i].contentId)), due[i + 1..], replies)
    ensures due[..i + 1] == due[..i] + [due[i]]
  {
    assert due[i..][1..] == due[i + 1..];
  }

  lemma TallyNext<R>(tried: seq<Record<R>>, record: Record<R>, replies: Replies<R>)
    ensures Tally(tried + [record], WasAccepted(replies)) ==
      Tally(tried, WasAccepted(replies)) + (if replies(record.contentId).Accepted? then 1 else 0)
    ensures Tally(tried + [record], WasRefused(replies)) ==
      Tally(tried, WasRefused(replies)) + (if replies(record.contentId).Refused? then 1 else 0)
  {
    KeepLast(tried, record, WasAccepted(replies));
    KeepLast(tried, record, WasRefused(replies));
  }

  /** The result of a delivery says how the submission ended; private envelopes are copied to nobody. */
  ghost predicate Reports<R>(submission: Submission<R>, record: Record<R>, reply: Reply<R>)
  {
    match submission
    case Rejected => reply.Refused?
    case Submitted(contentId, pending, receipt, copiedTo) =>
      && !reply.Refused? && contentId == record.contentId
      && (pending <==> reply.Failed?)
      && receipt == (if reply.Accepted? then Some(reply.receipt) else None)
      && copiedTo == (if reply.Accepted? && record.priority != 2 then record.auditServices else [])
  }

  // ---------------------------------------------------------------- clearing

  function Without<R>(found: Option<Record<R>>, gone: Record<R> -> bool): Option<Record<R>>
  {
    if found.Some? && gone(found.value) then None else found
  }

  ghost predicate ComesBefore<R>(rs: seq<Record<R>>, x: Record<R>, y: Record<R>)
  {
    exists i, j :: 0 <= i < j < |rs| && rs[i] == x && rs[j] == y
  }

  /** Elements of the one list in the order they have in the other. */
  ghost predicate InOrderOf<R>(part: seq<Record<R>>, rs: seq<Record<R>>)
  {
    forall i, j :: 0 <= i < j < |part| ==> ComesBefore(rs, part[i], part[j])
  }

  lemma BeforeInMore<R>(rs: seq<Record<R>>, x: Record<R>, y: Record<R>)
    requires rs != [] && ComesBefore(rs[1..], x, y)
    ensures ComesBefore(rs, x, y)
  {
    var i, j :| 0 <= i < j < |rs[1..]| && rs[1..][i] == x && rs[1..][j] == y;
    assert rs[i + 1] == x && rs[j + 1] == y;
  }

  lemma FirstIsBefore<R>(rs: seq<Record<R>>, y: Record<R>)
    requires rs != [] && y in rs[1..]
    ensures ComesBefore(rs, rs[0], y)
  {
    var j :| 0 <= j < |rs[1..]| && rs[1..][j] == y;
    assert rs[j + 1] == y;
  }

  lemma {:induction false} KeepInOrder<R>(rs: seq<Record<R>>, p: Record<R> -> bool)
    ensures InOrderOf(Keep(rs, p), rs)
  {
    if rs != [] {
      var kept, rest := Keep(rs, p), Keep(rs[1..], p);
      KeepInOrder(rs[1..], p);
      forall i, j | 0 <= i < j < |kept| ensures ComesBefore(rs, kept[i], kept[j]) {
        if !p(rs[0]) {
          BeforeInMore(rs, kept[i], kept[j]);
        } else if i > 0 {
          assert kept[i] == rest[i - 1] && kept[j] == rest[j - 1];
          BeforeInMore(rs, kept[i], kept[j]);
        } else {
          assert kept[j] == rest[j - 1];
          FirstIsBefore(rs, kept[j]);
        }
      }
    }
  }

  /** What a clearing leaves, by identifier. */
  lemma ClearingIs<R>(stored: seq<Record<R>>, kept: Record<R> -> bool, gone: Record<R> -> bool)
    requires forall r :: kept(r) <==> !gone(r)
    ensures var after := Keep(ReadAll(stored), kept);
      && InOrderOf(after, ReadAll(stored))
      && (UniqueIds(stored) ==>
        UniqueIds(after) && forall id :: Lookup(after, id) == Without(Lookup(stored, id), gone))
  {
    KeepInOrder(ReadAll(stored), kept);
    if UniqueIds(stored) {
      KeepLooksUp(stored, kept, "");
      forall id ensures Lookup(Keep(ReadAll(stored), kept), id) == Without(Lookup(stored, id), gone) {
        KeepLooksUp(stored, kept, id);
      }
    }
  }

  class Store<R> {
    const collate: Collate
    var stored: seq<Record<R>>

    constructor (collate: Collate)
      ensures this.collate == collate && stored == []
    {
      this.collate, stored := collate, [];
    }

    method ReplaceRecord(record: Record<R>)
      modifies this`stored
      ensures stored == Replace(old(stored), record)
    {
      var records := ReadAll(stored);
      stored := Keep(records, (r: Record<R>) => r.contentId != record.contentId) + [record];
    }

    method List(includeReceipted: bool) returns (rows: seq<Record<R>>)
      ensures rows == OrderOutbox(collate, if includeReceipted then ReadAll(stored) else Unreceipted(stored))
    {
      rows := ReadAll(stored);
      if !includeReceipted {
        rows := Keep(rows, (r: Record<R>) => !r.state.Receipted?);
      }
      rows := OrderOutbox(collate, rows);
    }

    /** The entry already there under the identifier, or a new one. */
    method Enqueue(input: Input, nowMs: int) returns (record: Record<R>)
      modifies this`stored
      ensures stored == Enqueued(old(stored), input, nowMs)
      ensures old(Lookup(stored, input.contentId)).Some? ==> record == old(Lookup(stored, input.contentId)).value
      ensures old(Lookup(stored, input.contentId)).None? ==> record == NewRecord(input, nowMs)
    {
      var existing := OutboxRecords.Find(ReadAll(stored), input.contentId);
      if existing.Some? {
        return existing.value;
      }
      record := Record(input.contentId, input.plane, input.priority, input.envelope, Trim(input.baseUrl),
                       input.transport, input.auditServices, nowMs, 0, 0, Pending, None);
      stored := ReadAll(stored) + [record];
    }

    /** What follows the answer: the receipt is kept, the record dropped, or the next attempt put off. */
    method Conclude(record: Record<R>, reply: Reply<R>) returns (submission: Submission<R>)
      modifies this`stored
      ensures stored == Answered(old(stored), record, reply)
      ensures Reports(submission, record, reply)
    {
      match reply
      case Accepted(receipt) =>
        var copiedTo := AuditServicesFor(record);
        ReplaceRecord(record.(state := Receipted, receipt := Some(receipt)));
        submission := Submitted(record.contentId, false, Some(receipt), copiedTo);
      case Refused =>
        stored := Keep(ReadAll(stored), (r: Record<R>) => r.contentId != record.contentId);
        submission := Rejected;
      case Failed(nowMs) =>
        var attempts := record.attempts + 1;
        var backoff := Min(300000, 1000 * Numbers.Pow2(Min(attempts, 8)));
        ReplaceRecord(record.(state := Pending, attempts := attempts, nextAttemptAtMs := nowMs + backoff));
        submission := Submitted(record.contentId, true, None, []);
    }

    method Deliver(record: Record<R>, reply: Reply<R>) returns (submission: Submission<R>)
      modifies this`stored
      ensures stored == DeliverOne(old(stored), record, reply)
      ensures Reports(submission, record, reply)
      ensures old(UniqueIds(stored)) ==> LeftBy(Lookup(stored, record.contentId), record, reply)
    {
      ghost var before := stored;
      ReplaceRecord(record.(state := Sending));
      submission := Conclude(record, reply);
      if UniqueIds(before) {
        DeliveredLeaves(before, record, reply);
      }
    }

    /** Queue before send: the entry is in storage before the submission starts. */
    method Submit(input: Input, nowMs: int, reply: Reply<R>) returns (submission: Submission<R>)
      modifies this`stored
      ensures var queued := Enqueued(old(stored), input, nowMs);
        var found := Lookup(old(stored), input.contentId);
        var record := if found.Some? then found.value else NewRecord(input, nowMs);
        if record.state.Receipted? && record.receipt.Some? then
          stored == queued && submission == Submitted(record.contentId, false, record.receipt, [])
        else stored == DeliverOne(queued, record, reply) && Reports(submission, record, reply)
    {
      var record := Enqueue(input, nowMs);
      if record.state.Receipted? && record.receipt.Some? {
        return Submitted(record.contentId, false, record.receipt, []);
      }
      submission := Deliver(record, reply);
    }

    /** The loop of a drain; `tried` lists the entries in the order they were delivered. */
    method DeliverEach(records: seq<Record<R>>, replies: Replies<R>)
      returns (tried: seq<Record<R>>, receipted: nat, rejected: nat)
      modifies this`stored
      ensures tried == records && stored == DeliverAll(old(stored), records, replies)
      ensures receipted == Tally(records, WasAccepted(replies))
      ensures rejected == Tally(records, WasRefused(replies))
    {
      tried, receipted, rejected := [], 0, 0;
      ghost var whole := DeliverAll(stored, records, replies);
      for i := 0 to |records|
        invariant tried == records[..i]
        invariant DeliverAll(stored, records[i..], replies) == whole
        invariant receipted == Tally(tried, WasAccepted(replies))
        invariant rejected == Tally(tried, WasRefused(replies))
      {
        var record := records[i];
        DeliverNext(stored, records, i, replies);
        TallyNext(tried, record, replies);
        var submission := Deliver(record, replies(record.contentId));
        if submission.Rejected? {
          rejected := rejected + 1;
        } else if !submission.pending {
          receipted := receipted + 1;
        }
        tried := tried + [record];
      }
    }

    method Drain(replies: Replies<R>, nowMs: int) returns (result: Drained, tried: seq<Record<R>>)
      modifies this`stored
      ensures tried == Due(collate, old(stored), nowMs)
      ensures stored == DeliverAll(old(stored), tried, replies)
      ensures result.attempted == |tried| && result.pending == |Unreceipted(stored)|
      ensures result.receipted == Tally(tried, WasAccepted(replies))
      ensures result.rejected == Tally(tried, WasRefused(replies))
    {
      var rows := List(false);
      var records := Keep(rows, (r: Record<R>) => r.nextAttemptAtMs <= nowMs);
      var receipted, rejected;
      tried, receipted, rejected := DeliverEach(records, replies);
      var left := List(false);
      result := Drained(|records|, receipted, |left|, rejected);
    }

    /** Only the entries of the plane disappear; all others read as before, in their order. */
    method ClearPlane(plane: nat)
      modifies this`stored
      ensures forall r :: r in stored <==> r in ReadAll(old(stored)) && r.plane != plane
      ensures InOrderOf(stored, ReadAll(old(stored)))
      ensures old(UniqueIds(stored)) ==> UniqueIds(stored)
      ensures old(UniqueIds(stored)) ==>
        forall id :: Lookup(stored, id) == Without(old(Lookup(stored, id)), (r: Record<R>) => r.plane == plane)
    {
      var stays := (r: Record<R>) => r.plane != plane;
      ClearingIs(stored, stays, (r: Record<R>) => r.plane == plane);
      stored := Keep(ReadAll(stored), stays);
    }

    /** Only the entries for the server disappear, whatever slashes close the address. */
    method ClearNode(url: string)
      modifies this`stored
      ensures forall r :: r in stored <==> r in ReadAll(old(stored)) && r.baseUrl != Trim(url)
      ensures InOrderOf(stored, ReadAll(old(stored)))
      ensures old(UniqueIds(stored)) ==> UniqueIds(stored)
      ensures old(UniqueIds(stored)) ==>
        forall id :: Lookup(stored, id) == Without(old(Lookup(stored, id)), (r: Record<R>) => r.baseUrl == Trim(url))
    {
      var stays := (r: Record<R>) => r.baseUrl != Trim(url);
      ClearingIs(stored, stays, (r: Record<R>) => r.baseUrl == Trim(url));
      stored := Keep(ReadAll(stored), stays);
    }
  }

  // ---------------------------------------------------------------- what a drain does

  lemma {:induction false} KeepConcat<R>(a: seq<Record<R>>, b: seq<Record<R>>, p: Record<R> -> bool)
    ensures Keep(a + b, p) == Keep(a, p) + Keep(b, p)
  {
    if a == [] {
      assert a + b == b;
    } else {
      assert (a + b)[0] == a[0] && (a + b)[1..] == a[1..] + b;
      KeepConcat(a[1..], b, p);
    }
  }

  lemma KeepLast<R>(a: seq<Record<R>>, r: Record<R>, p: Record<R> -> bool)
    ensures Keep(a + [r], p) == Keep(a, p) + (if p(r) then [r] else [])
  {
    KeepConcat(a, [r], p);
    assert [r][1..] == [];
  }

  /** Every attempt ends in exactly one of the three ways. */
  lemma {:induction false} EveryAttemptCounted<R>(due: seq<Record<R>>, replies: Replies<R>)
    ensures |due| ==
      Tally(due, WasAccepted(replies)) + Tally(due, WasRefused(replies)) + Tally(due, HasFailed(replies))
  {
    if due != [] {
      EveryAttemptCounted(due[1..], replies);
      var reply := replies(due[0].contentId);
      assert WasAccepted(replies)(due[0]) == reply.Accepted? && WasRefused(replies)(due[0]) == reply.Refused?;
      assert HasFailed(replies)(due[0]) == reply.Failed?;
    }
  }

  lemma DeliverOneLooksUp<R>(stored: seq<Record<R>>, record: Record<R>, reply: Reply<R>, id: string)
    requires UniqueIds(stored)
    ensures UniqueIds(DeliverOne(stored, record, reply))
    ensures Lookup(DeliverOne(stored, record, reply), id) ==
      if id == record.contentId then Ended(record, reply) else Lookup(stored, id)
  {
    MarkedLooksUp(stored, record, id);
    AnsweredLooksUp(Marked(stored, record), record, reply, id);
  }

  lemma DeliveredLeaves<R>(stored: seq<Record<R>>, record: Record<R>, reply: Reply<R>)
    requires UniqueIds(stored)
    ensures LeftBy(Lookup(DeliverOne(stored, record, reply), record.contentId), record, reply)
  {
    DeliverOneLooksUp(stored, record, reply, record.contentId);
    EndedSays(record, reply);
  }

  /** The entry with this identifier is attempted by a drain at this time. */
  ghost predicate IsDue<R>(collate: Collate, stored: seq<Record<R>>, id: string, nowMs: int)
  {
    exists r :: r in Due(collate, stored, nowMs) && r.contentId == id
  }

  lemma DueByLookup<R(!new)>(collate: Collate, stored: seq<Record<R>>, id: string, nowMs: int)
    requires Collation(collate) && UniqueIds(stored)
    ensures IsDue(collate, stored, id, nowMs) <==>
      (var r := Lookup(stored, id); r.Some? && !r.value.state.Receipted? && r.value.nextAttemptAtMs <= nowMs)
  {
    DueMembers(collate, stored, nowMs);
    var found := Lookup(stored, id);
    if found.Some? {
      InByLookup(stored, found.value);
    }
    if r :| r in Due(collate, stored, nowMs) && r.contentId == id {
      InByLookup(stored, r);
    }
  }

  /**
   When a delivered entry is due again: never once it has its receipt or was refused; after a failure at
   `t` of an entry with `a` attempts, from `t + 1000 * 2^min(a + 1, 8)` on, so never before two seconds
   have passed and always after 256.
   */
  lemma DueAfterDelivery<R(!new)>(collate: Collate, stored: seq<Record<R>>, record: Record<R>, reply: Reply<R>,
                                  u: int)
    requires Collation(collate) && UniqueIds(stored)
    ensures var due := IsDue(collate, DeliverOne(stored, record, reply), record.contentId, u);
      match reply
      case Failed(t) =>
        && (due <==> t + 1000 * Numbers.Pow2(if record.attempts + 1 < 8 then record.attempts + 1 else 8) <= u)
        && (u < t + 2000 ==> !due)
        && (t + 256000 <= u ==> due)
      case _ => !due
  {
    var after := DeliverOne(stored, record, reply);
    DeliverOneLooksUp(stored, record, reply, record.contentId);
    EndedSays(record, reply);
    DueByLookup(collate, after, record.contentId, u);
  }

  /** The same after a whole drain, for every entry that it attempted. */
  lemma DueAfterAttempt<R(!new)>(collate: Collate, stored: seq<Record<R>>, nowMs: int, replies: Replies<R>,
                                 record: Record<R>, u: int)
    requires Collation(collate) && UniqueIds(stored) && record in Due(collate, stored, nowMs)
    ensures var after := DeliverAll(stored, Due(collate, stored, nowMs), replies);
      var due := IsDue(collate, after, record.contentId, u);
      && LeftBy(Lookup(after, record.contentId), record, replies(record.contentId))
      && match replies(record.contentId)
         case Failed(t) =>
           && (due <==> t + 1000 * Numbers.Pow2(if record.attempts + 1 < 8 then record.attempts + 1 else 8) <= u)
           && (u < t + 2000 ==> !due)
           && (t + 256000 <= u ==> due)
         case _ => !due
  {
    var all := Due(collate, stored, nowMs);
    DueByUrgency(collate, stored, nowMs);
    FindIn(all, record);
    DrainedLooksUp(stored, all, replies, record.contentId);
    EndedSays(record, replies(record.contentId));
    DueByLookup(collate, DeliverAll(stored, all, replies), record.contentId, u);
  }

  /** A new entry has the input's fields and is due at once. */
  lemma NewEntryIsDue<R(!new)>(collate: Collate, stored: seq<Record<R>>, input: Input, nowMs: int, u: int)
    requires Collation(collate) && UniqueIds(stored) && Lookup(stored, input.contentId).None? && u >= 0
    ensures var after := Enqueued(stored, input, nowMs);
      var entry := Lookup(after, input.contentId);
      && entry.Some?
      && (var r := entry.value;
          && r.plane == input.plane && r.priority == input.priority && r.envelope == input.envelope
          && r.baseUrl == Trim(input.baseUrl) && r.transport == input.transport
          && r.auditServices == input.auditServices && r.queuedAtMs == nowMs
          && r.attempts == 0 && r.state.Pending? && r.receipt.None?)
      && IsDue(collate, after, input.contentId, u)
  {
    EnqueuedLooksUp(stored, input, nowMs, input.contentId);
    DueByLookup(collate, Enqueued(stored, input, nowMs), input.contentId, u);
  }

  /** After a drain each attempted entry is as its own submission left it, and every other as it was. */
  lemma {:induction false} DrainedLooksUp<R>(stored: seq<Record<R>>, due: seq<Record<R>>, replies: Replies<R>,
                                             id: string)
    requires UniqueIds(stored) && UniqueIds(due)
    ensures UniqueIds(DeliverAll(stored, due, replies))
    ensures Lookup(DeliverAll(stored, due, replies), id) == (
      var r := OutboxRecords.Find(due, id);
      if r.Some? then Ended(r.value, replies(id)) else Lookup(stored, id))
    decreases |due|
  {
    if due != [] {
      var next := DeliverOne(stored, due[0], replies(due[0].contentId));
      DeliverOneLooksUp(stored, due[0], replies(due[0].contentId), id);
      DrainedLooksUp(next, due[1..], replies, id);
      if due[0].contentId == id {
        assert forall x :: x in due[1..] ==> x.contentId != id;
      }
    }
  }

  lemma UnreceiptedIds<R>(stored: seq<Record<R>>)
    requires UniqueIds(stored)
    ensures UniqueIds(Unreceipted(stored))
  {
    ReadKeepsIds(stored);
    KeepKeepsIds(ReadAll(stored), (r: Record<R>) => !r.state.Receipted?);
  }

  lemma OrderMembers<R(!new)>(collate: Collate, records: seq<Record<R>>)
    requires Collation(collate)
    ensures forall r :: r in OrderOutbox(collate, records) <==> r in records
  {
    UrgencyIsOrder<R>(collate);
    var le := ByUrgency<R>(collate);
    var ordered := OrderOutbox(collate, records);
    SortedPermutation(le, records);
    forall r: Record<R> ensures r in ordered <==> r in records {
      assert r in ordered <==> r in multiset(ordered);
      assert r in records <==> r in multiset(records);
    }
  }

  /** What is due: the entries without a receipt whose wait is over. */
  lemma DueMembers<R(!new)>(collate: Collate, stored: seq<Record<R>>, nowMs: int)
    requires Collation(collate)
    ensures forall r :: r in Due(collate, stored, nowMs) <==>
      r in ReadAll(stored) && !r.state.Receipted? && r.nextAttemptAtMs <= nowMs
  {
    OrderMembers(collate, Unreceipted(stored));
    assert forall r :: r in Unreceipted(stored) <==> r in ReadAll(stored) && !r.state.Receipted?;
  }

  /** Due entries come once each, and none before a more urgent one. */
  lemma DueByUrgency<R(!new)>(collate: Collate, stored: seq<Record<R>>, nowMs: int)
    requires Collation(collate) && UniqueIds(stored)
    ensures UniqueIds(Due(collate, stored, nowMs))
    ensures Sorted(ByUrgency(collate), Due(collate, stored, nowMs))
    ensures var due := Due(collate, stored, nowMs);
      forall i, j :: 0 <= i < j < |due| ==> InTurn(collate, due[i], due[j])
  {
    var waiting := Unreceipted(stored);
    var ordered := OrderOutbox(collate, waiting);
    UnreceiptedIds(stored);
    OrderIsCanonical(collate, waiting, waiting);
    PermutationKeepsIds(waiting, ordered);
    KeepKeepsIds(ordered, (r: Record<R>) => r.nextAttemptAtMs <= nowMs);
    KeepKeepsSorted(ByUrgency(collate), ordered, (r: Record<R>) => r.nextAttemptAtMs <= nowMs);
    SortedInTurn(collate, Due(collate, stored, nowMs));
  }

  lemma {:induction false} KeepKeepsSorted<R>(le: Order<Record<R>>, rs: seq<Record<R>>, p: Record<R> -> bool)
    requires Sorted(le, rs)
    ensures Sorted(le, Keep(rs, p))
  {
    if rs != [] {
      KeepKeepsSorted(le, rs[1..], p);
      var rest := Keep(rs[1..], p);
      assert forall i :: 0 <= i < |rest| ==> rest[i] in rs[1..];
    }
  }

  /** An entry occurring once occurs once in every rearrangement. */
  lemma PermutationKeepsIds<R>(a: seq<Record<R>>, b: seq<Record<R>>)
    requires UniqueIds(a) && multiset(a) == multiset(b)
    ensures UniqueIds(b)
  {
    forall i, j | 0 <= i < j < |b| ensures b[i].contentId != b[j].contentId {
      assert b[i] in multiset(a) && b[j] in multiset(a);
      if b[i].contentId == b[j].contentId {
        var k :| 0 <= k < |a| && a[k] == b[i];
        var l :| 0 <= l < |a| && a[l] == b[j];
        assert k == l;
        OnceOnly(a, k);
        Twice(b, i, j);
        assert false;
      }
    }
  }

  lemma OnceOnly<R>(a: seq<Record<R>>, k: nat)
    requires UniqueIds(a) && k < |a|
    ensures multiset(a)[a[k]] == 1
  {
    assert a == a[..k] + [a[k]] + a[k + 1..];
    assert a[k] !in a[..k] && a[k] !in a[k + 1..];
  }

  lemma Twice<R>(b: seq<Record<R>>, i: nat, j: nat)
    requires i < j < |b| && b[i] == b[j]
    ensures multiset(b)[b[i]] >= 2
  {
    assert b == b[..i] + [b[i]] + b[i + 1..j] + [b[j]] + b[j + 1..];
  }

  lemma {:induction false} InByLookup<R>(stored: seq<Record<R>>, r: Record<R>)
    requires UniqueIds(stored)
    ensures r in ReadAll(stored) <==> Lookup(stored, r.contentId) == Some(r)
  {
    ReadKeepsIds(stored);
    if r in ReadAll(stored) {
      FindIn(ReadAll(stored), r);
    }
  }

  /** What a drain leaves due: nothing but what it did not attempt and failures whose wait is over. */
  lemma DueAfterDrain<R(!new)>(collate: Collate, stored: seq<Record<R>>, nowMs: int, replies: Replies<R>,
                               laterMs: int, r: Record<R>)
    requires Collation(collate) && UniqueIds(stored)
    requires r in Due(collate, DeliverAll(stored, Due(collate, stored, nowMs), replies), laterMs)
    ensures || (r in ReadAll(stored) && nowMs < r.nextAttemptAtMs <= laterMs)
      || (replies(r.contentId).Failed? && OutboxRecords.Find(Due(collate, stored, nowMs), r.contentId).Some?)
  {
    var due := Due(collate, stored, nowMs);
    DueByUrgency(collate, stored, nowMs);
    DueMembers(collate, stored, nowMs);
    AfterDrain(collate, stored, due, replies, laterMs, r);
  }

  lemma AfterDrain<R(!new)>(collate: Collate, stored: seq<Record<R>>, due: seq<Record<R>>, replies: Replies<R>,
                            laterMs: int, r: Record<R>)
    requires Collation(collate) && UniqueIds(stored) && UniqueIds(due)
    requires r in Due(collate, DeliverAll(stored, due, replies), laterMs)
    ensures r.nextAttemptAtMs <= laterMs && !r.state.Receipted?
    ensures
      || (r in ReadAll(stored) && r !in due)
      || (replies(r.contentId).Failed? && OutboxRecords.Find(due, r.contentId).Some?)
  {
    var after := DeliverAll(stored, due, replies);
    DrainedLooksUp(stored, due, replies, r.contentId);
    DueMembers(collate, after, laterMs);
    InByLookup(after, r);
    InByLookup(stored, r);
  }

  lemma FoundIsAccepted<R>(due: seq<Record<R>>, replies: Replies<R>, id: string)
    requires forall r :: r in due ==> replies(r.contentId).Accepted?
    ensures OutboxRecords.Find(due, id).Some? ==> !replies(id).Failed?
  {}

  /** A second drain at the same time, after one whose attempts were all accepted, attempts nothing. */
  lemma SecondDrainIdle<R(!new)>(collate: Collate, stored: seq<Record<R>>, nowMs: int, replies: Replies<R>)
    requires Collation(collate) && UniqueIds(stored)
    requires forall r :: r in Due(collate, stored, nowMs) ==> replies(r.contentId).Accepted?
    ensures Due(collate, DeliverAll(stored, Due(collate, stored, nowMs), replies), nowMs) == []
  {
    var due := Due(collate, stored, nowMs);
    var again := Due(collate, DeliverAll(stored, due, replies), nowMs);
    if again != [] {
      var r := again[0];
      DueAfterDrain(collate, stored, nowMs, replies, nowMs, r);
      FoundIsAccepted(due, replies, r.contentId);
      assert false;
    }
  }

  // ---------------------------------------------------------------- how many are left

  lemma {:induction false} KeepTwice<R>(rs: seq<Record<R>>, id: string, p: Record<R> -> bool)
    requires UniqueIds(rs)
    ensures var others := Keep(rs, (r: Record<R>) => r.contentId != id);
      var found := OutboxRecords.Find(rs, id);
      |Keep(others, p)| == |Keep(rs, p)| - (if found.Some? && p(found.value) then 1 else 0)
  {
    if rs != [] {
      KeepTwice(rs[1..], id, p);
      var others := Keep(rs[1..], (r: Record<R>) => r.contentId != id);
      if rs[0].contentId != id {
        assert ([rs[0]] + others)[1..] == others;
      } else {
        assert forall x :: x in rs[1..] ==> x.contentId != id;
        assert OutboxRecords.Find(rs[1..], id).None?;
      }
    }
  }

  predicate Waiting<R>(r: Option<Record<R>>)
  {
    r.Some? && !r.value.state.Receipted?
  }

  function One(b: bool): nat
  {
    if b then 1 else 0
  }

  lemma LeftAfterRemove<R>(stored: seq<Record<R>>, id: string)
    requires UniqueIds(stored)
    ensures |Unreceipted(Remove(stored, id))| == |Unreceipted(stored)| - One(Waiting(Lookup(stored, id)))
  {
    ReadKeepsIds(stored);
    KeepTwice(ReadAll(stored), id, (r: Record<R>) => !r.state.Receipted?);
    ReadRemoved(stored, id);
  }

  lemma ReadRemoved<R>(stored: seq<Record<R>>, id: string)
    ensures ReadAll(Remove(stored, id)) == Remove(stored, id)
  {
    var rs := Remove(stored, id);
    forall i | 0 <= i < |rs| ensures AsRead(rs[i]) == rs[i] {
      assert rs[i] in ReadAll(stored);
    }
  }

  lemma LeftAfterReplace<R>(stored: seq<Record<R>>, record: Record<R>)
    requires UniqueIds(stored)
    ensures |Unreceipted(Replace(stored, record))| ==
      |Unreceipted(stored)| - One(Waiting(Lookup(stored, record.contentId))) + One(!record.state.Receipted?)
  {
    var kept := Remove(stored, record.contentId);
    LeftAfterRemove(stored, record.contentId);
    assert ReadAll(kept + [record]) == ReadAll(kept) + [AsRead(record)];
    KeepLast(ReadAll(kept), AsRead(record), (r: Record<R>) => !r.state.Receipted?);
  }

  lemma LeftAfterOne<R>(stored: seq<Record<R>>, record: Record<R>, reply: Reply<R>)
    requires UniqueIds(stored) && Waiting(Lookup(stored, record.contentId))
    ensures |Unreceipted(DeliverOne(stored, record, reply))| == |Unreceipted(stored)| - One(!reply.Failed?)
  {
    var marked := Marked(stored, record);
    MarkedLooksUp(stored, record, record.contentId);
    LeftAfterReplace(stored, record.(state := Sending));
    var r := Ended(record, reply);
    if r.Some? {
      LeftAfterReplace(marked, r.value);
    } else {
      LeftAfterRemove(marked, record.contentId);
    }
  }

  /** A drain lowers the number of waiting entries by what it got receipts for and what was refused. */
  lemma {:induction false} DrainConserves<R>(stored: seq<Record<R>>, due: seq<Record<R>>, replies: Replies<R>)
    requires UniqueIds(stored) && UniqueIds(due)
    requires forall r :: r in due ==> Waiting(Lookup(stored, r.contentId))
    ensures |Unreceipted(stored)| == |Unreceipted(DeliverAll(stored, due, replies))|
      + Tally(due, WasAccepted(replies)) + Tally(due, WasRefused(replies))
    decreases |due|
  {
    if due != [] {
      var record, reply := due[0], replies(due[0].contentId);
      var next := DeliverOne(stored, record, reply);
      LeftAfterOne(stored, record, reply);
      DeliverOneLooksUp(stored, record, reply, "");
      forall r | r in due[1..] ensures Waiting(Lookup(next, r.contentId)) {
        DeliverOneLooksUp(stored, record, reply, r.contentId);
      }
      DrainConserves(next, due[1..], replies);
      assert WasAccepted(replies)(record) == reply.Accepted? && WasRefused(replies)(record) == reply.Refused?;
    }
  }

  /**
   The figures a drain reports add up: attempts are receipts, rejections and failures, and what was
   waiting before is receipted, rejected or waiting after.
   */
  lemma DrainReportAddsUp<R(!new)>(collate: Collate, stored: seq<Record<R>>, nowMs: int, replies: Replies<R>)
    requires Collation(collate) && UniqueIds(stored)
    ensures var due := Due(collate, stored, nowMs);
      var receipted, rejected := Tally(due, WasAccepted(replies)), Tally(due, WasRefused(replies));
      && |due| == receipted + rejected + Tally(due, HasFailed(replies))
      && |Unreceipted(stored)| == |Unreceipted(DeliverAll(stored, due, replies))| + receipted + rejected
  {
    var due := Due(collate, stored, nowMs);
    EveryAttemptCounted(due, replies);
    DueMembers(collate, stored, nowMs);
    DueByUrgency(collate, stored, nowMs);
    forall r | r in due ensures Waiting(Lookup(stored, r.contentId)) {
      InByLookup(stored, r);
    }
    DrainConserves(stored, due, replies);
  }
}
