/** The outbox's records and what each operation writes to storage, one read-modify-write at a time. */
module OutboxRecords {
  import opened Wrappers
  import opened Sorting
  import opened Numbers

  datatype State = Pending | Sending | Receipted

  /** `R` is a receipt. */
  datatype Record<R> = Record(
    contentId: string, plane: nat, priority: int, envelope: string, baseUrl: string,
    transport: Option<string>, auditServices: seq<string>, queuedAtMs: int,
    attempts: nat, nextAttemptAtMs: int, state: State, receipt: Option<R>)

  datatype Input = Input(
    contentId: string, plane: nat, priority: int, envelope: string, baseUrl: string,
    transport: Option<string>, auditServices: seq<string>)

  /** How a submission ends: accepted with a receipt, refused for good, or failed at some time. */
  datatype Reply<R> = Accepted(receipt: R) | Refused | Failed(nowMs: int)

  const DIRECT := 2

  // ---------------------------------------------------------------- storage

  /** What reading gives back for a stored record: a send that was under way is pending again. */
  function AsRead<R>(r: Record<R>): Record<R>
  {
    if r.state.Sending? then r.(state := Pending) else r
  }

  function ReadAll<R>(stored: seq<Record<R>>): (rs: seq<Record<R>>)
    ensures |rs| == |stored|
    ensures forall i :: 0 <= i < |rs| ==> rs[i] == AsRead(stored[i])
  {
    seq(|stored|, i requires 0 <= i < |stored| => AsRead(stored[i]))
  }

  function Keep<R>(rs: seq<Record<R>>, p: Record<R> -> bool): (kept: seq<Record<R>>)
    ensures forall r :: r in kept ==> r in rs && p(r)
    ensures forall r :: r in rs && p(r) ==> r in kept
    ensures |kept| <= |rs|
  {
    if rs == [] then []
    else if p(rs[0]) then [rs[0]] + Keep(rs[1..], p)
    else Keep(rs[1..], p)
  }

  function Remove<R>(stored: seq<Record<R>>, id: string): seq<Record<R>>
  {
    Keep(ReadAll(stored), (r: Record<R>) => r.contentId != id)
  }

  /** The record takes the place of any with its identifier, at the end. */
  function Replace<R>(stored: seq<Record<R>>, record: Record<R>): seq<Record<R>>
  {
    Remove(stored, record.contentId) + [record]
  }

  function Find<R>(stored: seq<Record<R>>, id: string): (r: Option<Record<R>>)
    ensures r.Some? ==> r.value in stored && r.value.contentId == id
    ensures r.None? <==> forall x :: x in stored ==> x.contentId != id
  {
    if stored == [] then None
    else if stored[0].contentId == id then Some(stored[0])
    else Find(stored[1..], id)
  }

  predicate UniqueIds<R>(stored: seq<Record<R>>)
  {
    forall i, j :: 0 <= i < j < |stored| ==> stored[i].contentId != stored[j].contentId
  }

  /** The record stored under an identifier, as reading gives it back. */
  function Lookup<R>(stored: seq<Record<R>>, id: string): Option<Record<R>>
  {
    Find(ReadAll(stored), id)
  }

  lemma {:induction false} FindIn<R>(stored: seq<Record<R>>, r: Record<R>)
    requires UniqueIds(stored) && r in stored
    ensures Find(stored, r.contentId) == Some(r)
  {
    if stored[0] != r {
      var i :| 0 <= i < |stored| && stored[i] == r;
      assert stored[0].contentId != stored[i].contentId;
      assert r == stored[1..][i - 1];
      FindIn(stored[1..], r);
    }
  }

  lemma ReadKeepsIds<R>(stored: seq<Record<R>>)
    requires UniqueIds(stored)
    ensures UniqueIds(ReadAll(stored))
  {}

  lemma {:induction false} KeepKeepsIds<R>(rs: seq<Record<R>>, p: Record<R> -> bool)
    requires UniqueIds(rs)
    ensures UniqueIds(Keep(rs, p))
  {
    if rs != [] {
      KeepKeepsIds(rs[1..], p);
      var rest := Keep(rs[1..], p);
      assert forall r :: r in rest ==> r in rs[1..] && r.contentId != rs[0].contentId;
    }
  }

  lemma {:induction false} FindKeep<R>(rs: seq<Record<R>>, p: Record<R> -> bool, id: string)
    requires UniqueIds(rs)
    ensures Find(Keep(rs, p), id) ==
      (if Find(rs, id).Some? && p(Find(rs, id).value) then Find(rs, id) else None)
  {
    if rs != [] {
      FindKeep(rs[1..], p, id);
      var rest := Keep(rs[1..], p);
      if p(rs[0]) {
        assert ([rs[0]] + rest)[1..] == rest;
      } else if rs[0].contentId == id {
        assert forall r :: r in rs[1..] ==> r.contentId != id;
      }
    }
  }

  lemma {:induction false} FindSnoc<R>(rs: seq<Record<R>>, r: Record<R>, id: string)
    ensures Find(rs + [r], id) ==
      (if Find(rs, id).Some? then Find(rs, id) else if r.contentId == id then Some(r) else None)
  {
    if rs == [] {
      assert rs + [r] == [r];
    } else {
      assert (rs + [r])[0] == rs[0] && (rs + [r])[1..] == rs[1..] + [r];
      FindSnoc(rs[1..], r, id);
    }
  }

  lemma {:induction false} FindRead<R>(rs: seq<Record<R>>, id: string)
    ensures Find(ReadAll(rs), id) == (if Find(rs, id).Some? then Some(AsRead(Find(rs, id).value)) else None)
  {
    if rs != [] {
      FindRead(rs[1..], id);
      assert ReadAll(rs)[1..] == ReadAll(rs[1..]);
    }
  }

  /** Records that reading gives back are read as they are. */
  lemma FindAsRead<R>(rs: seq<Record<R>>, id: string)
    requires forall r :: r in rs ==> !r.state.Sending?
    ensures Lookup(rs, id) == Find(rs, id)
  {
    FindRead(rs, id);
  }

  /** Clearing by a condition that does not look at the state drops exactly the matching records. */
  lemma KeepLooksUp<R>(stored: seq<Record<R>>, p: Record<R> -> bool, id: string)
    requires UniqueIds(stored)
    ensures var after := Keep(ReadAll(stored), p);
      && UniqueIds(after)
      && Lookup(after, id) ==
        (if Lookup(stored, id).Some? && p(Lookup(stored, id).value) then Lookup(stored, id) else None)
  {
    ReadKeepsIds(stored);
    KeepKeepsIds(ReadAll(stored), p);
    FindKeep(ReadAll(stored), p, id);
    FindAsRead(Keep(ReadAll(stored), p), id);
  }

  lemma RemoveLooksUp<R>(stored: seq<Record<R>>, gone: string, id: string)
    requires UniqueIds(stored)
    ensures UniqueIds(Remove(stored, gone))
    ensures Lookup(Remove(stored, gone), id) == if id == gone then None else Lookup(stored, id)
  {
    KeepLooksUp(stored, (r: Record<R>) => r.contentId != gone, id);
  }

  lemma SnocLooksUp<R>(stored: seq<Record<R>>, record: Record<R>, id: string)
    ensures Lookup(stored + [record], id) ==
      (if Lookup(stored, id).Some? then Lookup(stored, id)
       else if record.contentId == id then Some(AsRead(record)) else None)
  {
    assert ReadAll(stored + [record]) == ReadAll(stored) + [AsRead(record)];
    FindSnoc(ReadAll(stored), AsRead(record), id);
  }

  lemma SnocKeepsIds<R>(stored: seq<Record<R>>, record: Record<R>)
    requires UniqueIds(stored) && Lookup(stored, record.contentId).None?
    ensures UniqueIds(stored + [record])
  {
    assert forall i :: 0 <= i < |stored| ==> ReadAll(stored)[i] in ReadAll(stored);
  }

  lemma ReplaceLooksUp<R>(stored: seq<Record<R>>, record: Record<R>, id: string)
    requires UniqueIds(stored)
    ensures UniqueIds(Replace(stored, record))
    ensures Lookup(Replace(stored, record), id) ==
      if id == record.contentId then Some(AsRead(record)) else Lookup(stored, id)
  {
    var kept := Remove(stored, record.contentId);
    RemoveLooksUp(stored, record.contentId, id);
    SnocLooksUp(kept, record, id);
    assert Lookup(kept, record.contentId).None? by {
      RemoveLooksUp(stored, record.contentId, record.contentId);
    }
    SnocKeepsIds(kept, record);
  }

  // ---------------------------------------------------------------- what the operations write

  /** A server address without its closing slashes. */
  function Trim(url: string): (t: string)
    ensures t == "" || t[|t| - 1] != '/'
    ensures |t| <= |url| && t == url[..|t|] && forall i :: |t| <= i < |url| ==> url[i] == '/'
  {
    if url != "" && url[|url| - 1] == '/' then Trim(url[..|url| - 1]) else url
  }

  function NewRecord<R>(input: Input, nowMs: int): Record<R>
  {
    Record(input.contentId, input.plane, input.priority, input.envelope, Trim(input.baseUrl), input.transport,
           input.auditServices, nowMs, 0, 0, Pending, None)
  }

  function Enqueued<R>(stored: seq<Record<R>>, input: Input, nowMs: int): seq<Record<R>>
  {
    if Lookup(stored, input.contentId).Some? then stored else ReadAll(stored) + [NewRecord(input, nowMs)]
  }

  function Min(a: int, b: int): int
  {
    if a <= b then a else b
  }

  function Backoff(attempts: nat): int
  {
    Min(300000, 1000 * Pow2(Min(attempts, 8)))
  }

  /** The wait grows with every failure, from two seconds to 256; the cap of 300 is never reached. */
  lemma {:induction false} BackoffBounds(attempts: nat)
    requires attempts >= 1
    ensures Backoff(attempts) == 1000 * Pow2(Min(attempts, 8))
    ensures 2000 <= Backoff(attempts) <= Backoff(attempts + 1) <= 256000
    ensures Backoff(attempts) < Backoff(attempts + 1) <==> attempts < 8
  {
    assert Pow2(1) == 2;
    assert Pow2(2) == 4;
    assert Pow2(3) == 8;
    assert Pow2(4) == 16;
    assert Pow2(5) == 32;
    assert Pow2(6) == 64;
    assert Pow2(7) == 128;
    assert Pow2(8) == 256;
    var n := Min(attempts, 8);
    assert n == 1 || n == 2 || n == 3 || n == 4 || n == 5 || n == 6 || n == 7 || n == 8;
  }

  /** The record after its submission ended, gone if it was refused. */
  function Ended<R>(record: Record<R>, reply: Reply<R>): Option<Record<R>>
  {
    match reply
    case Accepted(receipt) => Some(record.(state := Receipted, receipt := Some(receipt)))
    case Refused => None
    case Failed(nowMs) =>
      var attempts := record.attempts + 1;
      Some(record.(state := Pending, attempts := attempts, nextAttemptAtMs := nowMs + Backoff(attempts)))
  }

  /** The power of two in the wait after so many failures. */
  lemma WaitIs(attempts: nat)
    requires attempts >= 1
    ensures Backoff(attempts) == 1000 * Pow2(if attempts < 8 then attempts else 8)
    ensures 2000 <= Backoff(attempts) <= 256000
  {
    BackoffBounds(attempts);
  }

  /** The same bytes for the same target, with the same place in the queue. */
  predicate SameFields<R>(a: Record<R>, b: Record<R>)
  {
    && a.contentId == b.contentId && a.plane == b.plane && a.priority == b.priority && a.envelope == b.envelope
    && a.baseUrl == b.baseUrl && a.transport == b.transport && a.auditServices == b.auditServices
    && a.queuedAtMs == b.queuedAtMs
  }

  /**
   The entry after a delivery: with its receipt; gone; or pending again, with one more attempt and not
   before its wait is over, which is two seconds doubled with every failure up to 256.
   */
  ghost predicate LeftBy<R>(entry: Option<Record<R>>, record: Record<R>, reply: Reply<R>)
  {
    match reply
    case Accepted(receipt) =>
      entry.Some? && entry.value.state.Receipted? && entry.value.receipt == Some(receipt)
      && entry.value.attempts == record.attempts && SameFields(entry.value, record)
    case Refused => entry.None?
    case Failed(t) =>
      && entry.Some? && entry.value.state.Pending? && entry.value.receipt == record.receipt
      && entry.value.attempts == record.attempts + 1 && SameFields(entry.value, record)
      && entry.value.nextAttemptAtMs ==
           t + 1000 * Pow2(if record.attempts + 1 < 8 then record.attempts + 1 else 8)
  }

  lemma EndedSays<R>(record: Record<R>, reply: Reply<R>)
    ensures LeftBy(Ended(record, reply), record, reply)
    ensures reply.Failed? ==>
      reply.nowMs + 2000 <= Ended(record, reply).value.nextAttemptAtMs <= reply.nowMs + 256000
  {
    WaitIs(record.attempts + 1);
  }

  /** The first write of a delivery. */
  function Marked<R>(stored: seq<Record<R>>, record: Record<R>): seq<Record<R>>
  {
    Replace(stored, record.(state := Sending))
  }

  /** The last write of a delivery. */
  function Answered<R>(stored: seq<Record<R>>, record: Record<R>, reply: Reply<R>): seq<Record<R>>
  {
    var r := Ended(record, reply);
    if r.Some? then Replace(stored, r.value) else Remove(stored, record.contentId)
  }

  lemma AnsweredLooksUp<R>(stored: seq<Record<R>>, record: Record<R>, reply: Reply<R>, id: string)
    requires UniqueIds(stored)
    ensures UniqueIds(Answered(stored, record, reply))
    ensures Lookup(Answered(stored, record, reply), id) ==
      if id == record.contentId then Ended(record, reply) else Lookup(stored, id)
  {
    var r := Ended(record, reply);
    if r.Some? {
      ReplaceLooksUp(stored, r.value, id);
    } else {
      RemoveLooksUp(stored, record.contentId, id);
    }
  }

  lemma MarkedLooksUp<R>(stored: seq<Record<R>>, record: Record<R>, id: string)
    requires UniqueIds(stored)
    ensures UniqueIds(Marked(stored, record))
    ensures Lookup(Marked(stored, record), id) ==
      if id == record.contentId then Some(record.(state := Pending)) else Lookup(stored, id)
  {
    ReplaceLooksUp(stored, record.(state := Sending), id);
  }

  lemma EnqueuedLooksUp<R>(stored: seq<Record<R>>, input: Input, nowMs: int, id: string)
    requires UniqueIds(stored)
    ensures UniqueIds(Enqueued(stored, input, nowMs))
    ensures Lookup(Enqueued(stored, input, nowMs), id) ==
      if id == input.contentId && Lookup(stored, id).None? then Some(NewRecord(input, nowMs)) else Lookup(stored, id)
  {
    if Lookup(stored, input.contentId).None? {
      var record := NewRecord<R>(input, nowMs);
      assert ReadAll(ReadAll(stored)) == ReadAll(stored);
      ReadKeepsIds(stored);
      SnocLooksUp(ReadAll(stored), record, id);
      SnocKeepsIds(ReadAll(stored), record);
    }
  }
}
