/**
 The audit stores: one append after another, kept in memory and in the data file.

 `AuditStore` is both the record store and the issue store; `file` is the data file's text, a
 missing file being the empty text, and `durable` says whether a data file is configured.
 */
module AuditLog {
  import opened Wrappers
  import opened AuditChain
  import opened AuditText

  datatype Log<C> = Log(records: seq<Record<C>>, file: string)

  /** A store: `ready` once its data file was loaded. */
  datatype Holding<C> = Holding(ready: bool, log: Log<C>)

  datatype Outcome<C> =
    Created(record: Record<C>) | Existing(record: Record<C>) | Conflict | WriteFailed | LoadFailed(error: LoadError)

  datatype Setting<!C> = Setting(sch: Schema<C>, sha: Sha, k: Codec<C>, durable: bool)

  // ---------------------------------------------------------------- one append

  /** The record a key stands for: the latest with that key. */
  function Latest<C>(sch: Schema<C>, records: seq<Record<C>>, key: string): (r: Option<Record<C>>)
    ensures r.Some? ==> r.value in records && sch.key(r.value.item) == key
    ensures r.None? ==> forall q :: q in records ==> sch.key(q.item) != key
  {
    if records == [] then None
    else
      var last := records[|records| - 1];
      if sch.key(last.item) == key then Some(last) else Latest(sch, records[..|records| - 1], key)
  }

  function NewRecord<C>(s: Setting<C>, records: seq<Record<C>>, item: C, nowMs: int): (r: Record<C>)
    ensures Follows(s.sch, s.sha, r, Head(records))
  {
    Record(item, nowMs, Head(records), HashRecord(s.sch, s.sha, item, nowMs, Head(records)))
  }

  /** The answer when the key is taken: the record there, or an error if it holds something else. */
  function Answer<C>(sch: Schema<C>, existing: Record<C>, item: C): Outcome<C>
  {
    if sch.json(existing.item) != sch.json(item) then Conflict else Existing(existing)
  }

  function Written<C>(s: Setting<C>, log: Log<C>, r: Record<C>): Log<C>
  {
    Log(log.records + [r], if s.durable then log.file + s.k.render(r) + "\n" else log.file)
  }

  /** One append on its own; `diskOk` is whether writing to the data file succeeds. */
  function AppendTo<C>(s: Setting<C>, log: Log<C>, item: C, nowMs: int, diskOk: bool): (Log<C>, Outcome<C>)
  {
    var existing := Latest(s.sch, log.records, s.sch.key(item));
    var r := NewRecord(s, log.records, item, nowMs);
    if existing.Some? then (log, Answer(s.sch, existing.value, item))
    else if s.durable && !diskOk then (log, WriteFailed)
    else (Written(s, log, r), Created(r))
  }

  /** Another item under the same key. */
  predicate Differs<C>(sch: Schema<C>, r: Record<C>, item: C)
  {
    sch.key(r.item) == sch.key(item) && sch.json(r.item) != sch.json(item)
  }

  predicate DistinctKeys<C>(sch: Schema<C>, records: seq<Record<C>>)
  {
    forall i, j :: 0 <= i < j < |records| ==> sch.key(records[i].item) != sch.key(records[j].item)
  }

  /** What holds of a log between appends: one chain, which the file, if there is one, reads back as. */
  ghost predicate Sound<C>(s: Setting<C>, log: Log<C>)
  {
    && Chained(s.sch, s.sha, log.records)
    && (s.durable ==> Complete(log.file) && LoadText(s.sch, s.sha, s.k, log.file) == Loading(log.records, None))
  }

  lemma AppendKeepsSound<C(!new)>(s: Setting<C>, log: Log<C>, item: C, nowMs: int, diskOk: bool)
    requires JsonLines(s.k) && Sound(s, log)
    ensures Sound(s, AppendTo(s, log, item, nowMs, diskOk).0)
  {
    var r := NewRecord(s, log.records, item, nowMs);
    ChainedSnoc(s.sch, s.sha, log.records, r);
    if s.durable {
      CompleteReadsBack(s.sch, s.sha, s.k, log.file, r);
    }
  }

  /** A record of this item at this time, linked to the log's last record and hashed with it. */
  predicate RecordedAt<C(==)>(s: Setting<C>, log: Log<C>, r: Record<C>, item: C, nowMs: int)
  {
    && r.item == item && r.atMs == nowMs
    && r.previousHash == (if log.records == [] then "" else log.records[|log.records| - 1].recordHash)
    && r.recordHash == s.sha(s.sch.tag + "\0" + r.previousHash + "\0" + Decimal(nowMs) + "\0" + s.sch.json(item))
  }

  predicate KeyTaken<C>(sch: Schema<C>, records: seq<Record<C>>, key: string)
  {
    exists i :: 0 <= i < |records| && sch.key(records[i].item) == key
  }

  lemma {:induction false} NewRecordIs<C>(s: Setting<C>, log: Log<C>, item: C, nowMs: int)
    ensures RecordedAt(s, log, NewRecord(s, log.records, item, nowMs), item, nowMs)
  {
    assert [NUL] == "\0";
  }

  /**
   What one append does to any log: it creates a record exactly when the key is free and the disk, if
   there is one, takes it; the record is of this item at this time. Otherwise nothing changes.
   */
  lemma AppendRecords<C>(s: Setting<C>, log: Log<C>, item: C, nowMs: int, diskOk: bool)
    ensures var (after, outcome) := AppendTo(s, log, item, nowMs, diskOk);
      var taken := KeyTaken(s.sch, log.records, s.sch.key(item));
      && (outcome.Created? <==> !taken && (s.durable ==> diskOk))
      && (outcome.WriteFailed? <==> !taken && s.durable && !diskOk)
      && (outcome.Existing? || outcome.Conflict? <==> taken)
      && (outcome.Created? ==>
            && RecordedAt(s, log, outcome.record, item, nowMs)
            && after.records == log.records + [outcome.record]
            && after.file == (if s.durable then log.file + s.k.render(outcome.record) + "\n" else log.file))
      && (!outcome.Created? ==> after == log)
  {
    NewRecordIs(s, log, item, nowMs);
    var found := Latest(s.sch, log.records, s.sch.key(item));
    if found.Some? {
      var i :| 0 <= i < |log.records| && log.records[i] == found.value;
    }
  }

  /**
   An append adds one record or none: none when the key was taken or the write failed, and then the
   log is as it was. It never gives two records one key.
   */
  lemma {:induction false} AppendAddsAtMostOne<C(!new)>(s: Setting<C>, log: Log<C>, item: C, nowMs: int, diskOk: bool)
    requires JsonLines(s.k) && Sound(s, log) && DistinctKeys(s.sch, log.records)
    ensures var (after, outcome) := AppendTo(s, log, item, nowMs, diskOk);
      && DistinctKeys(s.sch, after.records)
      && log.records <= after.records
      && (outcome.Created? ==> after.records == log.records + [outcome.record])
      && (outcome.Created? ==> outcome.record.item == item && outcome.record.atMs == nowMs)
      && (!outcome.Created? ==> after == log)
      && (outcome.Existing? ==> outcome.record in log.records && s.sch.json(outcome.record.item) == s.sch.json(item))
      && (outcome.Conflict? <==> (exists q :: q in log.records && Differs(s.sch, q, item)))
      && AppendTo(s, after, item, nowMs, diskOk).0 == after
  {
    var (after, outcome) := AppendTo(s, log, item, nowMs, diskOk);
    var found := Latest(s.sch, log.records, s.sch.key(item));
    if found.Some? {
      assert forall q :: q in log.records && s.sch.key(q.item) == s.sch.key(item) ==> q == found.value;
    }
    if outcome.Created? {
      assert after.records[|log.records|] == outcome.record;
    }
  }

  // ---------------------------------------------------------------- the map by key

  /** `byKey` after setting each record in turn. */
  function Indexed<C>(sch: Schema<C>, base: map<string, Record<C>>, records: seq<Record<C>>): map<string, Record<C>>
  {
    if records == [] then base
    else
      var last := records[|records| - 1];
      Indexed(sch, base, records[..|records| - 1])[sch.key(last.item) := last]
  }

  lemma {:induction false} IndexedIsLatest<C>(sch: Schema<C>, records: seq<Record<C>>, key: string)
    ensures key in Indexed(sch, map[], records) <==> Latest(sch, records, key).Some?
    ensures key in Indexed(sch, map[], records) ==>
      Indexed(sch, map[], records)[key] == Latest(sch, records, key).value
  {
    if records != [] {
      IndexedIsLatest(sch, records[..|records| - 1], key);
    }
  }

  // ---------------------------------------------------------------- a store that loads first

  function LoadedFrom<C>(s: Setting<C>, file: string): seq<Record<C>>
  {
    if s.durable then LoadText(s.sch, s.sha, s.k, file).records else []
  }

  /** Loading, unless that was done; what a load that failed took in stays in memory. */
  function Opened<C>(s: Setting<C>, st: Holding<C>): (Holding<C>, Option<LoadError>)
  {
    if st.ready then (st, None)
    else if !s.durable then (st.(ready := true), None)
    else
      var l := LoadText(s.sch, s.sha, s.k, st.log.file);
      (Holding(l.error.None?, Log(st.log.records + l.records, st.log.file)), l.error)
  }

  /** One append to a store in any state. */
  function AppendOnce<C>(s: Setting<C>, st: Holding<C>, item: C, nowMs: int, diskOk: bool): (Holding<C>, Outcome<C>)
  {
    var (loaded, error) := Opened(s, st);
    if error.Some? then (loaded, LoadFailed(error.value))
    else
      var (log, outcome) := AppendTo(s, loaded.log, item, nowMs, diskOk);
      (Holding(true, log), outcome)
  }

  /**
   What holds of a store from its construction on, over any data file: a ready one is one chain, and
   one that is not holds nothing but what loads of a file that is refused have left.
   */
  ghost predicate Consistent<C>(s: Setting<C>, st: Holding<C>)
  {
    && (st.ready ==> Chained(s.sch, s.sha, st.log.records))
    && (!st.ready && st.log.records != [] ==> s.durable && LoadText(s.sch, s.sha, s.k, st.log.file).error.Some?)
  }

  /** A store whose file has ended its last line, and once ready reads back as the records. */
  ghost predicate Whole<C>(s: Setting<C>, st: Holding<C>)
  {
    if st.ready then Sound(s, st.log) else s.durable ==> Complete(st.log.file)
  }

  lemma LoadedIsChained<C>(s: Setting<C>, file: string)
    ensures Chained(s.sch, s.sha, LoadText(s.sch, s.sha, s.k, file).records)
  {
    LoadedSoFar(s.sch, s.sha, s.k, Lines(file));
  }

  /** Opening succeeds exactly when the file is accepted, and then the store holds what the file does. */
  lemma OpenedExactly<C>(s: Setting<C>, st: Holding<C>)
    requires Consistent(s, st) && !st.ready
    ensures var (after, error) := Opened(s, st);
      && Consistent(s, after) && after.log.file == st.log.file
      && (after.ready <==> error == None)
      && (after.ready <==> s.durable ==> LoadText(s.sch, s.sha, s.k, st.log.file).error.None?)
      && (after.ready ==> after.log.records == LoadedFrom(s, st.log.file))
      && (after.ready ==> (Sound(s, after.log) <==> Whole(s, st)))
  {
    LoadedIsChained(s, st.log.file);
    var l := LoadText(s.sch, s.sha, s.k, st.log.file);
    assert [] + l.records == l.records;
  }

  lemma AppendOnceKeeps<C(!new)>(s: Setting<C>, st: Holding<C>, item: C, nowMs: int, diskOk: bool)
    requires JsonLines(s.k) && Consistent(s, st)
    ensures Consistent(s, AppendOnce(s, st, item, nowMs, diskOk).0)
    ensures Whole(s, st) ==> Whole(s, AppendOnce(s, st, item, nowMs, diskOk).0)
  {
    if !st.ready {
      OpenedExactly(s, st);
    }
    var (after, error) := Opened(s, st);
    if error.None? {
      ChainedSnoc(s.sch, s.sha, after.log.records, NewRecord(s, after.log.records, item, nowMs));
      if Sound(s, after.log) {
        AppendKeepsSound(s, after.log, item, nowMs, diskOk);
      }
    }
  }

  lemma FailedToOpen<C>(s: Setting<C>, st: Holding<C>, item: C, nowMs: int, diskOk: bool)
    requires Opened(s, st).1.Some?
    ensures AppendOnce(s, st, item, nowMs, diskOk) == (Opened(s, st).0, LoadFailed(Opened(s, st).1.value))
  {}

  lemma AppendOpened<C>(s: Setting<C>, st: Holding<C>, item: C, nowMs: int, diskOk: bool)
    requires Opened(s, st).1.None?
    ensures var appended := AppendTo(s, Opened(s, st).0.log, item, nowMs, diskOk);
      AppendOnce(s, st, item, nowMs, diskOk) == (Holding(true, appended.0), appended.1)
  {}

  /**
   The first record written after a start is read back at the next start exactly when the file had
   ended its last line; if not, the next start refuses the file.
   */
  lemma FirstAppendReadsBack<C(!new)>(s: Setting<C>, st: Holding<C>, item: C, nowMs: int, diskOk: bool)
    requires JsonLines(s.k) && NoTwoOnALine(s.k) && s.durable
    requires Consistent(s, st) && !st.ready && AppendOnce(s, st, item, nowMs, diskOk).1.Created?
    ensures var log := AppendOnce(s, st, item, nowMs, diskOk).0.log;
      var next := LoadText(s.sch, s.sha, s.k, log.file);
      if Complete(st.log.file) then next == Loading(log.records, None) else next.error.Some?
  {
    OpenedExactly(s, st);
    var log := Opened(s, st).0.log;
    WrittenReadsBack(s.sch, s.sha, s.k, st.log.file, NewRecord(s, log.records, item, nowMs));
  }

  // ---------------------------------------------------------------- the store

  lemma IndexedPush<C>(sch: Schema<C>, records: seq<Record<C>>, r: Record<C>)
    ensures Indexed(sch, map[], records + [r]) == Indexed(sch, map[], records)[sch.key(r.item) := r]
  {
    assert (records + [r])[..|records|] == records;
  }

  function Onto<C>(taken: seq<Record<C>>, rest: Loading<C>): Loading<C>
  {
    Loading(taken + rest.records, rest.error)
  }

  lemma LoadStep<C>(s: Setting<C>, lines: seq<string>, previousHash: string, index: nat, taken: seq<Record<C>>)
    requires index < |lines|
    ensures Onto(taken, LoadFrom(s.sch, s.sha, s.k, lines[index..], previousHash, index)) ==
      match s.k.parse(lines[index])
      case None => Loading(taken, Some(Unparsable(index + 1)))
      case Some(r) =>
        if !Follows(s.sch, s.sha, r, previousHash) then Loading(taken, Some(ChainBroken(index + 1)))
        else Onto(taken + [r], LoadFrom(s.sch, s.sha, s.k, lines[index + 1..], r.recordHash, index + 1))
  {
    assert lines[index..][1..] == lines[index + 1..];
    var p := s.k.parse(lines[index]);
    if p.Some? {
      var rest := LoadFrom(s.sch, s.sha, s.k, lines[index + 1..], p.value.recordHash, index + 1);
      assert taken + ([p.value] + rest.records) == (taken + [p.value]) + rest.records;
    }
  }

  class AuditStore<C(!new,==)> {
    const s: Setting<C>
    var records: seq<Record<C>>
    var byKey: map<string, Record<C>>
    var ready: bool
    var file: string

    ghost function State(): Holding<C>
      reads this
    {
      Holding(ready, Log(records, file))
    }

    ghost predicate Valid()
      reads this
    {
      byKey == Indexed(s.sch, map[], records) && Consistent(s, State())
    }

    constructor (s: Setting<C>, file: string)
      ensures Valid() && this.s == s && State() == Holding(false, Log([], file))
    {
      this.s, this.file := s, file;
      records, byKey, ready := [], map[], false;
    }

    /** Every line that follows on is taken in, up to the first that does not. */
    method LoadLines(lines: seq<string>) returns (error: Option<LoadError>)
      requires byKey == Indexed(s.sch, map[], records)
      modifies this`records, this`byKey
      ensures byKey == Indexed(s.sch, map[], records)
      ensures var l := LoadFrom(s.sch, s.sha, s.k, lines, "", 0);
        records == old(records) + l.records && error == l.error
    {
      error := None;
      var previousHash := "";
      ghost var l := LoadFrom(s.sch, s.sha, s.k, lines, "", 0);
      ghost var taken: seq<Record<C>> := [];
      var index := 0;
      assert l == Onto(taken, l);
      while index < |lines|
        invariant index <= |lines|
        invariant records == old(records) + taken
        invariant byKey == Indexed(s.sch, map[], records)
        invariant l == Onto(taken, LoadFrom(s.sch, s.sha, s.k, lines[index..], previousHash, index))
      {
        LoadStep(s, lines, previousHash, index, taken);
        var parsed := s.k.parse(lines[index]);
        if parsed.None? {
          return Some(Unparsable(index + 1));
        }
        var record := parsed.value;
        var expected := HashRecord(s.sch, s.sha, record.item, record.atMs, previousHash);
        if record.previousHash != previousHash || record.recordHash != expected {
          return Some(ChainBroken(index + 1));
        }
        IndexedPush(s.sch, records, record);
        records := records + [record];
        byKey := byKey[s.sch.key(record.item) := record];
        taken := taken + [record];
        previousHash := record.recordHash;
        index := index + 1;
      }
    }

    /** Reading the data file, if there is one. */
    method Load() returns (error: Option<LoadError>)
      requires byKey == Indexed(s.sch, map[], records)
      modifies this`records, this`byKey
      ensures byKey == Indexed(s.sch, map[], records)
      ensures s.durable ==> records == old(records) + LoadText(s.sch, s.sha, s.k, file).records
      ensures s.durable ==> error == LoadText(s.sch, s.sha, s.k, file).error
      ensures !s.durable ==> error == None && records == old(records)
    {
      if !s.durable {
        return None;
      }
      error := LoadLines(Lines(file));
    }

    /**
     A store that is not ready loads; it becomes ready when the whole file was accepted. Records left
     in memory by a load that failed do no harm: the same file fails again.
     */
    method Initialise() returns (error: Option<LoadError>)
      requires Valid()
      modifies this`records, this`byKey, this`ready
      ensures Valid() && (ready <==> error == None)
      ensures (State(), error) == Opened(s, old(State()))
      ensures old(ready) ==> ready && records == old(records)
      ensures !old(ready) && ready ==> records == LoadedFrom(s, file)
      ensures !old(ready) && ready ==> (Sound(s, Log(records, file)) <==> s.durable ==> Complete(file))
    {
      if ready {
        return None;
      }
      OpenedExactly(s, State());
      error := Load();
      ready := error.None?;
    }

    /** The lookup, the write and the push of one append. */
    method AppendRecord(item: C, nowMs: int, diskOk: bool) returns (outcome: Outcome<C>)
      requires byKey == Indexed(s.sch, map[], records)
      modifies this`records, this`byKey, this`file
      ensures byKey == Indexed(s.sch, map[], records)
      ensures Log(records, file) == AppendTo(s, old(Log(records, file)), item, nowMs, diskOk).0
      ensures outcome == AppendTo(s, old(Log(records, file)), item, nowMs, diskOk).1
      ensures outcome.Created? ==> RecordedAt(s, old(Log(records, file)), outcome.record, item, nowMs)
    {
      var key := s.sch.key(item);
      NewRecordIs(s, Log(records, file), item, nowMs);
      IndexedIsLatest(s.sch, records, key);
      if key in byKey {
        var existing := byKey[key];
        if s.sch.json(existing.item) != s.sch.json(item) {
          return Conflict;
        }
        return Existing(existing);
      }
      var record := NewRecord(s, records, item, nowMs);
      if s.durable {
        if !diskOk {
          return WriteFailed;
        }
        file := file + s.k.render(record) + "\n";
      }
      IndexedPush(s.sch, records, record);
      records := records + [record];
      byKey := byKey[key := record];
      outcome := Created(record);
    }

    /** One call of the chain of appends: the store loads if it has to, and then the record is appended. */
    method AppendSerial(item: C, nowMs: int, diskOk: bool) returns (outcome: Outcome<C>)
      requires Valid() && JsonLines(s.k)
      modifies this`records, this`byKey, this`ready, this`file
      ensures Valid()
      ensures (State(), outcome) == AppendOnce(s, old(State()), item, nowMs, diskOk)
      ensures old(Whole(s, State())) ==> Whole(s, State())
    {
      ghost var st := State();
      ghost var after := AppendOnce(s, st, item, nowMs, diskOk).0;
      AppendOnceKeeps(s, st, item, nowMs, diskOk);
      var error := Initialise();
      if error.Some? {
        FailedToOpen(s, st, item, nowMs, diskOk);
        assert State() == after;
        return LoadFailed(error.value);
      }
      AppendOpened(s, st, item, nowMs, diskOk);
      outcome := AppendRecord(item, nowMs, diskOk);
      assert State() == after;
    }
  }
}
