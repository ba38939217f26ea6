/** Streaming ingest as a machine of atomic events, over every crash, reopening and failing write. */
module IngestModel {
  import opened Wrappers
  import opened ByteStrings
  import opened WriteAheadLog

  const LAST_SEQ: U64 := TWO_64 - 1
  const EMPTY_LOG: LogTable := LogTable(map[], {})

  type Entry = (U64, WalRecord)

  datatype Opts = Opts(queueDepth: nat, batchSize: nat)

  /** What a crash keeps, and the writes it may take back. */
  datatype Disk = Disk(durable: LogTable, dirty: LogTable)

  datatype Caller = Recovery | Consumer

  /** Where a flush stands: none, inside `flush_batch`, or acknowledging a delivered batch. */
  datatype Task =
    | Idle
    | Awaiting(batch: seq<Entry>, caller: Caller)
    | Acking(left: seq<U64>, caller: Caller)

  /** A running process. The last five fields record history of this lifetime only: the log when recovery was called,
      the submissions, what became of those taken from the queue, and what was handed over, by anyone and by the
      consumer. */
  datatype Proc = Proc(
    next: U64,
    ready: bool,
    queue: seq<WalRecord>,
    pending: seq<Entry>,
    task: Task,
    recovered: bool,
    atRecovery: map<U64, WalRecord>,
    submitted: seq<WalRecord>,
    fates: seq<Option<U64>>,
    handed: seq<U64>,
    byConsumer: seq<Entry>)

  /** Two histories of the whole run. `accepted`: every record whose append returned Ok, with its number.
      `delivered`: every record of a `flush_batch` that returned Ok, with the number it had in the log. */
  datatype State = State(
    disk: Disk,
    proc: Option<Proc>,
    accepted: set<Entry>,
    delivered: set<Entry>)

  datatype Event =
    | Submit(record: WalRecord)
    | ConsumeOne(io: Io)
    | Tick
    | BatchReturned(ok: bool)
    | AckOne(io: Io)
    | AcksDone
    | BeginRecovery
    | SkipRecovery
    | Crash(keptRecs: set<U64>, keptAcks: set<U64>)
    | Open

  // ---------------------------------------------------------------- the disk

  function View(d: Disk): LogTable {
    Merge(d.durable, d.dirty)
  }

  function PutRec(d: Disk, n: U64, r: WalRecord, io: Io): Disk {
    match io
    case InsertFailed => d
    case FlushFailed => d.(dirty := d.dirty.(recs := d.dirty.recs[n := r]))
    case Synced => Disk(View(d).(recs := View(d).recs[n := r]), EMPTY_LOG)
  }

  function PutAck(d: Disk, n: U64, io: Io): Disk {
    match io
    case InsertFailed => d
    case FlushFailed => d.(dirty := d.dirty.(acks := d.dirty.acks + {n}))
    case Synced => Disk(View(d).(acks := View(d).acks + {n}), EMPTY_LOG)
  }

  // A crash keeps any subset of the writes that no flush had confirmed.
  function AfterCrash(d: Disk, keptRecs: set<U64>, keptAcks: set<U64>): Disk {
    var recs := map n | n in d.dirty.recs && n in keptRecs :: d.dirty.recs[n];
    Disk(Merge(d.durable, LogTable(recs, d.dirty.acks * keptAcks)), EMPTY_LOG)
  }

  // ---------------------------------------------------------------- events

  function Seqs(batch: seq<Entry>): seq<U64> {
    seq(|batch|, i requires 0 <= i < |batch| => batch[i].0)
  }

  function EntrySet(batch: seq<Entry>): set<Entry> {
    set e | e in batch
  }

  // The log holds this very record under this number.
  predicate Logged(recs: map<U64, WalRecord>, e: Entry) {
    e.0 in recs && recs[e.0] == e.1
  }

  predicate AllDelivered(recs: map<U64, WalRecord>, delivered: set<Entry>) {
    forall n | n in recs :: (n, recs[n]) in delivered
  }

  function HandOver(p: Proc, batch: seq<Entry>, caller: Caller): Proc {
    p.(task := Awaiting(batch, caller), handed := p.handed + Seqs(batch),
       byConsumer := if caller.Consumer? then p.byConsumer + batch else p.byConsumer)
  }

  ghost function Opened(d: Disk): Proc {
    Proc(Successor(Greatest(d.durable.recs.Keys)), false, [], [], Idle, false, map[], [], [], [], [])
  }

  predicate Enabled(s: State, e: Event) {
    match s.proc
    case None => e.Open?
    case Some(p) =>
      match e
      case Open => false
      case Submit(_) => true
      case ConsumeOne(_) => p.ready && p.task.Idle? && |p.queue| > 0
      case Tick => p.ready && p.task.Idle?
      case BatchReturned(_) => p.task.Awaiting?
      case AckOne(_) => p.task.Acking? && |p.task.left| > 0
      case AcksDone => p.task.Acking? && |p.task.left| == 0
      case BeginRecovery => !p.ready && p.task.Idle?
      case SkipRecovery => !p.ready && p.task.Idle?
      case Crash(_, _) => true
  }

  // The process after one append and before the batch-size test.
  function Taken(p: Proc, io: Io): Proc
    requires |p.queue| > 0
  {
    var r := p.queue[0];
    var q := p.(queue := p.queue[1..]);
    if |r.payload| > MAX_WAL_PAYLOAD_BYTES then q.(fates := p.fates + [None])
    else q.(
        next := Successor(p.next),
        fates := p.fates + [if io.Synced? then Some(p.next) else None],
        pending := if io.Synced? then p.pending + [(p.next, r)] else p.pending)
  }

  function ConsumeStep(o: Opts, s: State, p: Proc, io: Io): State
    requires |p.queue| > 0
  {
    var r := p.queue[0];
    var t := s.(proc := Some(MaybeFlush(o, Taken(p, io))));
    if |r.payload| > MAX_WAL_PAYLOAD_BYTES then t
    else t.(disk := PutRec(s.disk, p.next, r, io),
            accepted := if io.Synced? then s.accepted + {(p.next, r)} else s.accepted)
  }

  function MaybeFlush(o: Opts, p: Proc): Proc {
    if |p.pending| >= o.batchSize then HandOver(p, p.pending, Consumer) else p
  }

  function ReturnStep(s: State, p: Proc, ok: bool): State
    requires p.task.Awaiting?
  {
    if ok then
      s.(delivered := s.delivered + EntrySet(p.task.batch),
         proc := Some(p.(task := Acking(Seqs(p.task.batch), p.task.caller))))
    else
      s.(proc := Some(Finish(p, p.task.caller, false)))
  }

  // The consumer forgets its batch either way; recovery ends and the service starts.
  function Finish(p: Proc, caller: Caller, ok: bool): Proc {
    match caller
    case Consumer => p.(task := Idle, pending := [])
    case Recovery => p.(task := Idle, ready := true, recovered := ok)
  }

  // Recovery stops at the first failing acknowledgement; the consumer only logs it.
  function AckStep(s: State, p: Proc, io: Io): State
    requires p.task.Acking? && |p.task.left| > 0
  {
    s.(disk := PutAck(s.disk, p.task.left[0], io),
       proc := Some(
         if p.task.caller.Recovery? && !io.Synced? then Finish(p, Recovery, false)
         else p.(task := p.task.(left := p.task.left[1..]))))
  }

  ghost function BeginRecoveryStep(s: State, p: Proc): State {
    var log := View(s.disk);
    var q := p.(atRecovery := log.recs);
    var batch := UnackedList(log);
    s.(proc := Some(if |batch| == 0 then Finish(q, Recovery, true) else HandOver(q, batch, Recovery)))
  }

  ghost function Step(o: Opts, s: State, e: Event): State
    requires Enabled(s, e)
  {
    match e
    case Open => s.(proc := Some(Opened(s.disk)))
    case Crash(keptRecs, keptAcks) => s.(disk := AfterCrash(s.disk, keptRecs, keptAcks), proc := None)
    case Submit(r) =>
      var p := s.proc.value;
      if |p.queue| >= o.queueDepth then s
      else s.(proc := Some(p.(queue := p.queue + [r], submitted := p.submitted + [r])))
    case ConsumeOne(io) => ConsumeStep(o, s, s.proc.value, io)
    case Tick =>
      var p := s.proc.value;
      if |p.pending| == 0 then s else s.(proc := Some(HandOver(p, p.pending, Consumer)))
    case BatchReturned(ok) => ReturnStep(s, s.proc.value, ok)
    case AckOne(io) => AckStep(s, s.proc.value, io)
    case AcksDone => s.(proc := Some(Finish(s.proc.value, s.proc.value.task.caller, true)))
    case BeginRecovery => BeginRecoveryStep(s, s.proc.value)
    case SkipRecovery => s.(proc := Some(s.proc.value.(ready := true)))
  }

  // ---------------------------------------------------------------- runs

  const FRESH: State := State(Disk(EMPTY_LOG, EMPTY_LOG), None, {}, {})

  ghost predicate Run(o: Opts, states: seq<State>, events: seq<Event>) {
    && |states| == |events| + 1
    && states[0] == FRESH
    && forall i | 0 <= i < |events| :: Enabled(states[i], events[i]) && states[i + 1] == Step(o, states[i], events[i])
  }

  // The 64-bit counter has not reached its last value.
  predicate CounterBelowLast(s: State) {
    s.proc.Some? ==> s.proc.value.next < LAST_SEQ
  }

  // ---------------------------------------------------------------- invariant

  predicate Increasing(ns: seq<U64>) {
    forall i, j | 0 <= i < j < |ns| :: ns[i] < ns[j]
  }

  // What was accepted or delivered is in the log for good; what is acknowledged has been delivered.
  ghost predicate DiskInv(s: State) {
    && (forall e | e in s.accepted :: Logged(s.disk.durable.recs, e))
    && (forall e | e in s.delivered :: Logged(s.disk.durable.recs, e))
    && (forall n | n in View(s.disk).acks :: DurableAndDelivered(s, n))
    && (forall n | n in View(s.disk).recs :: n < LAST_SEQ)
    && s.disk.durable.recs.Keys !! s.disk.dirty.recs.Keys
    && (s.proc.None? ==> s.disk.dirty == EMPTY_LOG)
  }

  predicate DurableAndDelivered(s: State, n: U64) {
    n in s.disk.durable.recs && (n, s.disk.durable.recs[n]) in s.delivered
  }

  // Numbers in use lie below the counter; batches hold the durable records under their numbers.
  ghost predicate ProcInv(s: State, p: Proc) {
    && (forall n | n in View(s.disk).recs :: n < p.next)
    && (forall e | e in p.pending :: e in s.accepted)
    && (match p.task
        case Idle => true
        case Awaiting(batch, caller) => forall e | e in batch :: Logged(s.disk.durable.recs, e)
        case Acking(left, caller) => forall n | n in left :: DurableAndDelivered(s, n))
  }

  // Recovery runs before the consumer takes its first record, and what it reports is true.
  ghost predicate PhaseInv(s: State, p: Proc) {
    && (!p.ready ==>
          && p.pending == [] && p.fates == [] && !p.recovered
          && (if p.task.Idle? then s.disk.dirty == EMPTY_LOG && p.handed == [] else p.task.caller.Recovery?))
    && (p.ready && !p.task.Idle? ==> p.task.caller.Consumer?)
    && (p.recovered ==> AllDelivered(p.atRecovery, s.delivered))
    && (p.task.Awaiting? && p.task.caller.Recovery? ==>
          AllDelivered(p.atRecovery, s.delivered + EntrySet(p.task.batch)))
    && (p.task.Acking? && p.task.caller.Recovery? ==> AllDelivered(p.atRecovery, s.delivered))
  }

  // Hand-overs of one lifetime, and the bound on the batch.
  ghost predicate OrderInv(o: Opts, p: Proc) {
    && Increasing(p.handed)
    && Increasing(Seqs(p.pending))
    && (forall n | n in p.handed :: n < p.next)
    && (p.task.Idle? ==>
          && |p.pending| < (if o.batchSize == 0 then 1 else o.batchSize)
          && forall n, e | n in p.handed && e in p.pending :: n < e.0)
    && (p.task.Awaiting? && p.task.caller.Consumer? ==> p.task.batch == p.pending)
  }

  // The i-th submission of this lifetime is still queued, was refused by the log, or is the record at its number.
  ghost predicate FateInv(s: State, p: Proc) {
    && |p.fates| <= |p.submitted|
    && p.queue == p.submitted[|p.fates|..]
    && (forall i | 0 <= i < |p.fates| && p.fates[i].Some? ::
          var n := p.fates[i].value;
          n < p.next && Logged(s.disk.durable.recs, (n, p.submitted[i])))
    && (forall i, j | 0 <= i < j < |p.fates| && p.fates[i].Some? && p.fates[j].Some? ::
          p.fates[i].value < p.fates[j].value)
  }

  /** The submissions that the log accepted, in order, each with its number. */
  function Kept(fates: seq<Option<U64>>, submitted: seq<WalRecord>): seq<Entry>
    requires |fates| <= |submitted|
  {
    if |fates| == 0 then []
    else
      var k := |fates| - 1;
      Kept(fates[..k], submitted) + (if fates[k].Some? then [(fates[k].value, submitted[k])] else [])
  }

  // Entries that the consumer has not handed over yet; a batch under way has been.
  function Waiting(p: Proc): seq<Entry> {
    if !p.task.Idle? && p.task.caller.Consumer? then [] else p.pending
  }

  // Every accepted submission has been handed over or waits to be, in order and once.
  ghost predicate BatchInv(p: Proc) {
    && |p.fates| <= |p.submitted|
    && Kept(p.fates, p.submitted) == p.byConsumer + Waiting(p)
    && (p.task.Awaiting? && p.task.caller.Consumer? ==>
          |p.task.batch| <= |p.byConsumer| && p.task.batch == p.byConsumer[|p.byConsumer| - |p.task.batch|..])
  }

  // Recovery works on a flushed log, and what it has not acknowledged yet is still to be.
  ghost predicate RecoveryInv(s: State, p: Proc) {
    && (!p.ready ==> s.disk.dirty == EMPTY_LOG)
    && (p.recovered ==> p.atRecovery.Keys <= s.disk.durable.acks)
    && (p.task.Awaiting? && p.task.caller.Recovery? ==>
          p.atRecovery.Keys <= s.disk.durable.acks + ToSet(Seqs(p.task.batch)))
    && (p.task.Acking? && p.task.caller.Recovery? ==>
          p.atRecovery.Keys <= s.disk.durable.acks + ToSet(p.task.left))
  }

  function ToSet(ns: seq<U64>): set<U64> {
    set n | n in ns
  }

  ghost predicate Inv(o: Opts, s: State) {
    DiskInv(s) &&
    (s.proc.Some? ==>
       var p := s.proc.value;
       && ProcInv(s, p) && PhaseInv(s, p) && OrderInv(o, p)
       && FateInv(s, p) && BatchInv(p) && RecoveryInv(s, p))
  }

  // ---------------------------------------------------------------- the invariant is kept

  lemma OpenKeeps(o: Opts, s: State)
    requires Inv(o, s) && s.proc.None?
    ensures Inv(o, Step(o, s, Open))
  {
    var g := Greatest(s.disk.durable.recs.Keys);
    assert View(s.disk).recs == s.disk.durable.recs;
    assert g == 0 || g in View(s.disk).recs;
    assert Successor(g) == g + 1;
  }

  lemma CrashKeeps(o: Opts, s: State, keptRecs: set<U64>, keptAcks: set<U64>)
    requires Inv(o, s) && s.proc.Some?
    ensures Inv(o, Step(o, s, Crash(keptRecs, keptAcks)))
  {}

  lemma SubmitKeeps(o: Opts, s: State, r: WalRecord)
    requires Inv(o, s) && Enabled(s, Submit(r))
    ensures Inv(o, Step(o, s, Submit(r)))
  {
    hide Kept;
    KeptSoFar(s.proc.value.fates, s.proc.value.submitted, r);
  }

  lemma {:induction false} KeptSoFar(fates: seq<Option<U64>>, submitted: seq<WalRecord>, r: WalRecord)
    requires |fates| <= |submitted|
    ensures Kept(fates, submitted + [r]) == Kept(fates, submitted)
  {
    if |fates| > 0 {
      KeptSoFar(fates[..|fates| - 1], submitted, r);
    }
  }

  lemma BatchReturnedKeeps(o: Opts, s: State, ok: bool)
    requires Inv(o, s) && Enabled(s, BatchReturned(ok))
    ensures Inv(o, Step(o, s, BatchReturned(ok)))
  {
    hide Kept, ToSet;
    var p := s.proc.value;
    if ok {
      var batch := p.task.batch;
      forall n | n in Seqs(batch) ensures DurableAndDelivered(Step(o, s, BatchReturned(ok)), n) {
        var i :| 0 <= i < |batch| && Seqs(batch)[i] == n;
        assert batch[i] in batch && Logged(s.disk.durable.recs, batch[i]);
      }
    }
  }

  lemma AckOneDisk(o: Opts, s: State, io: Io)
    requires Inv(o, s) && Enabled(s, AckOne(io))
    ensures var t := Step(o, s, AckOne(io)); DiskInv(t) && ProcInv(t, t.proc.value)
    ensures s.disk.durable.acks <= Step(o, s, AckOne(io)).disk.durable.acks
    ensures forall e | Logged(s.disk.durable.recs, e) :: Logged(Step(o, s, AckOne(io)).disk.durable.recs, e)
    ensures io.Synced? ==> Step(o, s, AckOne(io)).disk.dirty == EMPTY_LOG
                           && s.proc.value.task.left[0] in Step(o, s, AckOne(io)).disk.durable.acks
  {
    hide Kept, Increasing, UnackedList, Seqs, EntrySet, PhaseInv, OrderInv, FateInv, BatchInv, RecoveryInv;
    var p := s.proc.value;
    var n, t := p.task.left[0], Step(o, s, AckOne(io));
    assert n in p.task.left;
    forall k | k in p.task.left ensures DurableAndDelivered(t, k) {
      assert DurableAndDelivered(s, k);
    }
  }

  lemma AckOneKeeps(o: Opts, s: State, io: Io)
    requires Inv(o, s) && Enabled(s, AckOne(io))
    ensures Inv(o, Step(o, s, AckOne(io)))
  {
    hide Kept, Increasing, UnackedList, Seqs, EntrySet, DiskInv, ProcInv;
    var left := s.proc.value.task.left;
    assert ToSet(left) == ToSet(left[1..]) + {left[0]};
    AckOneDisk(o, s, io);
  }

  lemma IncreasingAppend(ns: seq<U64>, batch: seq<Entry>)
    requires Increasing(ns) && Increasing(Seqs(batch))
    requires forall n, e | n in ns && e in batch :: n < e.0
    ensures Increasing(ns + Seqs(batch))
  {
    var all := ns + Seqs(batch);
    forall i, j | 0 <= i < j < |all| ensures all[i] < all[j] {
      if i < |ns| <= j {
        assert all[i] == ns[i] && ns[i] in ns;
        assert batch[j - |ns|] in batch;
      } else if |ns| <= i {
        assert Seqs(batch)[i - |ns|] < Seqs(batch)[j - |ns|];
      }
    }
  }

  // Handing over a batch that lies above everything handed so far keeps the order facts.
  lemma HandOverKeeps(o: Opts, p: Proc, batch: seq<Entry>, caller: Caller)
    requires Increasing(p.handed) && Increasing(Seqs(p.pending)) && Increasing(Seqs(batch))
    requires forall n | n in p.handed :: n < p.next
    requires forall e | e in batch :: e.0 < p.next
    requires forall n, e | n in p.handed && e in batch :: n < e.0
    requires caller.Consumer? ==> batch == p.pending
    ensures OrderInv(o, HandOver(p, batch, caller))
  {
    IncreasingAppend(p.handed, batch);
    var q := HandOver(p, batch, caller);
    forall n | n in q.handed ensures n < q.next {
      if n !in p.handed {
        var i :| 0 <= i < |batch| && Seqs(batch)[i] == n;
        assert batch[i] in batch;
      }
    }
  }

  lemma TickKeeps(o: Opts, s: State)
    requires Inv(o, s) && Enabled(s, Tick)
    ensures Inv(o, Step(o, s, Tick))
  {
    var p := s.proc.value;
    if |p.pending| > 0 {
      HandOverKeeps(o, p, p.pending, Consumer);
      HandOverBatch(p, p.pending, Consumer);
    }
  }

  // Recovery starts on a flushed log, with nothing handed over.
  lemma BeginRecoveryKeeps(o: Opts, s: State)
    requires Inv(o, s) && Enabled(s, BeginRecovery)
    ensures Inv(o, Step(o, s, BeginRecovery))
  {
    hide UnackedList, OrderInv, FateInv, BatchInv, DiskInv, RecoveryInv, HandOver;
    assert View(s.disk).recs == s.disk.durable.recs;
    BeginRecoveryDisk(o, s);
    BeginRecoveryPhase(o, s);
    BeginRecoveryOrder(o, s);
    BeginRecoveryBatch(o, s);
  }

  lemma BeginRecoveryBatch(o: Opts, s: State)
    requires Inv(o, s) && Enabled(s, BeginRecovery)
    ensures BatchInv(Step(o, s, BeginRecovery).proc.value)
  {
    hide UnackedList, OrderInv, DiskInv, ProcInv, Kept;
    var p, log := s.proc.value, View(s.disk);
    HandOverBatch(p.(atRecovery := log.recs), UnackedList(log), Recovery);
  }

  lemma BeginRecoveryDisk(o: Opts, s: State)
    requires Inv(o, s) && Enabled(s, BeginRecovery) && View(s.disk).recs == s.disk.durable.recs
    ensures var t := Step(o, s, BeginRecovery); DiskInv(t) && ProcInv(t, t.proc.value)
  {
    hide UnackedList, OrderInv, FateInv, PhaseInv;
    RecoveryCovers(View(s.disk), s.delivered, s.disk.durable.recs);
  }

  lemma BeginRecoveryPhase(o: Opts, s: State)
    requires Inv(o, s) && Enabled(s, BeginRecovery) && View(s.disk).recs == s.disk.durable.recs
    ensures var t := Step(o, s, BeginRecovery); PhaseInv(t, t.proc.value) && RecoveryInv(t, t.proc.value)
  {
    hide UnackedList, OrderInv, FateInv, ProcInv, AllDelivered;
    RecoveryCovers(View(s.disk), s.delivered, s.disk.durable.recs);
    RecoveryAcks(View(s.disk));
  }

  lemma BeginRecoveryOrder(o: Opts, s: State)
    requires Inv(o, s) && Enabled(s, BeginRecovery) && View(s.disk).recs == s.disk.durable.recs
    ensures var t := Step(o, s, BeginRecovery); OrderInv(o, t.proc.value) && FateInv(t, t.proc.value)
  {
    hide UnackedList, AllDelivered, RecoveryInv, BatchInv;
    var p, log := s.proc.value, View(s.disk);
    RecoveryCovers(log, s.delivered, log.recs);
    if |UnackedList(log)| > 0 {
      HandOverKeeps(o, p.(atRecovery := log.recs), UnackedList(log), Recovery);
    }
  }

  lemma RecoveryCovers(log: LogTable, delivered: set<Entry>, recs: map<U64, WalRecord>)
    requires recs == log.recs
    requires forall n | n in log.acks :: n in recs && (n, recs[n]) in delivered
    ensures AllDelivered(recs, delivered + EntrySet(UnackedList(log)))
    ensures |UnackedList(log)| == 0 ==> AllDelivered(recs, delivered)
    ensures forall e | e in UnackedList(log) :: Logged(recs, e)
    ensures Increasing(Seqs(UnackedList(log)))
  {
    UnackedListFacts(log);
    forall n | n in recs ensures (n, recs[n]) in delivered + EntrySet(UnackedList(log)) {
      if n !in log.acks {
        assert (n, log.recs[n]) in UnackedList(log);
      }
    }
    forall e | e in UnackedList(log) ensures Logged(recs, e) {
      assert (e.0, e.1) in UnackedList(log);
    }
  }

  lemma RecoveryAcks(log: LogTable)
    ensures log.recs.Keys <= log.acks + ToSet(Seqs(UnackedList(log)))
    ensures |UnackedList(log)| == 0 ==> log.recs.Keys <= log.acks
  {
    hide UnackedList;
    UnackedListFacts(log);
    var batch := UnackedList(log);
    forall n | n in log.recs && n !in log.acks ensures n in ToSet(Seqs(batch)) {
      assert (n, log.recs[n]) in batch;
      var i :| 0 <= i < |batch| && batch[i] == (n, log.recs[n]);
      assert Seqs(batch)[i] == n;
    }
  }

  lemma UnackedListFacts(log: LogTable)
    ensures forall n, r :: (n, r) in UnackedList(log) <==> n in log.recs && n !in log.acks && log.recs[n] == r
    ensures Increasing(Seqs(UnackedList(log)))
  {
    OutstandingAscends(Numbers(log.recs.Keys), log);
  }

  lemma PutRecFacts(d: Disk, n: U64, r: WalRecord, io: Io)
    requires d.durable.recs.Keys !! d.dirty.recs.Keys && n !in View(d).recs
    ensures var e := PutRec(d, n, r, io);
            && e.durable.recs.Keys !! e.dirty.recs.Keys
            && View(e).acks == View(d).acks
            && (forall k | k in View(e).recs :: k == n || k in View(d).recs)
            && (forall k | k in d.durable.recs :: k in e.durable.recs && e.durable.recs[k] == d.durable.recs[k])
            && (io.Synced? ==> n in e.durable.recs && e.durable.recs[n] == r)
            && d.durable.acks <= e.durable.acks
  {}

  lemma ConsumeDisk(o: Opts, s: State, p: Proc, io: Io)
    requires DiskInv(s) && s.proc == Some(p) && ProcInv(s, p) && p.next < LAST_SEQ && |p.queue| > 0
    ensures var t := ConsumeStep(o, s, p, io);
            && DiskInv(t)
            && (forall n | n in View(t.disk).recs :: n < Taken(p, io).next)
            && (forall n | n in s.disk.durable.recs :: Logged(t.disk.durable.recs, (n, s.disk.durable.recs[n])))
            && s.accepted <= t.accepted && s.disk.durable.acks <= t.disk.durable.acks
            && (io.Synced? && |p.queue[0].payload| <= MAX_WAL_PAYLOAD_BYTES ==>
                  (p.next, p.queue[0]) in t.accepted && Logged(t.disk.durable.recs, (p.next, p.queue[0])))
  {
    hide PutRec, MaybeFlush, View;
    PutRecFacts(s.disk, p.next, p.queue[0], io);
    DurableInView(s.disk);
  }

  lemma DurableInView(d: Disk)
    ensures forall n | n in d.durable.recs :: n in View(d).recs
  {}

  lemma ConsumeProc(o: Opts, s: State, p: Proc, io: Io)
    requires DiskInv(s) && s.proc == Some(p) && ProcInv(s, p) && p.next < LAST_SEQ && |p.queue| > 0
    requires PhaseInv(s, p) && RecoveryInv(s, p) && p.ready && p.task.Idle?
    ensures var t := ConsumeStep(o, s, p, io);
            ProcInv(t, t.proc.value) && PhaseInv(t, t.proc.value) && RecoveryInv(t, t.proc.value)
  {
    hide PutRec, View, Seqs, EntrySet;
    ConsumeDisk(o, s, p, io);
    var t := ConsumeStep(o, s, p, io);
    var q := Taken(p, io);
    forall e | e in q.pending
      ensures e in t.accepted
    {
      if e in p.pending {
        assert e in s.accepted;
      }
    }
  }

  lemma ConsumeOrder(o: Opts, s: State, p: Proc, io: Io)
    requires DiskInv(s) && s.proc == Some(p) && ProcInv(s, p) && p.next < LAST_SEQ && |p.queue| > 0
    requires OrderInv(o, p) && p.task.Idle?
    ensures OrderInv(o, MaybeFlush(o, Taken(p, io)))
  {
    hide HandOver, View;
    DurableInView(s.disk);
    var q := Taken(p, io);
    forall e | e in p.pending ensures e.0 < p.next {
      assert Logged(s.disk.durable.recs, e) && e.0 in View(s.disk).recs;
    }
    forall i, j | 0 <= i < j < |q.pending| ensures Seqs(q.pending)[i] < Seqs(q.pending)[j] {
      assert q.pending[i] == p.pending[i] && p.pending[i] in p.pending;
      if j < |p.pending| {
        assert Seqs(p.pending)[i] < Seqs(p.pending)[j];
      }
    }
    if |q.pending| >= o.batchSize {
      HandOverKeeps(o, q, q.pending, Consumer);
    }
  }

  lemma FlushKeepsQueue(o: Opts, p: Proc)
    ensures var q := MaybeFlush(o, p);
            q.next == p.next && q.queue == p.queue && q.submitted == p.submitted && q.fates == p.fates
  {}

  lemma ConsumeFates(o: Opts, s: State, p: Proc, io: Io)
    requires DiskInv(s) && s.proc == Some(p) && ProcInv(s, p) && p.next < LAST_SEQ && |p.queue| > 0
    requires FateInv(s, p)
    ensures FateInv(ConsumeStep(o, s, p, io), MaybeFlush(o, Taken(p, io)))
  {
    hide PutRec, View, DiskInv, ProcInv, MaybeFlush;
    FlushKeepsQueue(o, Taken(p, io));
    ConsumeDisk(o, s, p, io);
    var t := ConsumeStep(o, s, p, io);
    var q, k := Taken(p, io), |p.fates|;
    assert |q.fates| == k + 1 && q.fates[..k] == p.fates;
    assert q.queue == q.submitted[k + 1..];
    forall i | 0 <= i < |q.fates| && q.fates[i].Some?
      ensures var n := q.fates[i].value;
              n < q.next && Logged(t.disk.durable.recs, (n, q.submitted[i]))
      ensures forall j | i < j < |q.fates| && q.fates[j].Some? :: q.fates[i].value < q.fates[j].value
    {
      if i < k {
        assert q.fates[i] == p.fates[i];
        forall j | i < j < k && q.fates[j].Some? ensures q.fates[i].value < q.fates[j].value {
          assert q.fates[j] == p.fates[j];
        }
      }
    }
  }

  lemma ConsumeBatch(o: Opts, s: State, p: Proc, io: Io)
    requires FateInv(s, p) && BatchInv(p) && p.task.Idle? && |p.queue| > 0
    ensures BatchInv(MaybeFlush(o, Taken(p, io)))
  {
    var q, k := Taken(p, io), |p.fates|;
    assert q.fates[..k] == p.fates && p.queue[0] == p.submitted[k];
    assert Kept(q.fates, q.submitted) == p.byConsumer + q.pending;
    HandOverBatch(q, q.pending, Consumer);
  }

  lemma HandOverBatch(p: Proc, batch: seq<Entry>, caller: Caller)
    requires |p.fates| <= |p.submitted| && p.task.Idle? && Kept(p.fates, p.submitted) == p.byConsumer + p.pending
    requires caller.Consumer? ==> batch == p.pending
    ensures BatchInv(HandOver(p, batch, caller)) && BatchInv(p)
  {
    hide Kept;
    assert (p.byConsumer + batch)[|p.byConsumer|..] == batch;
    assert p.byConsumer + batch + [] == p.byConsumer + batch;
  }

  lemma ConsumeKeeps(o: Opts, s: State, io: Io)
    requires Inv(o, s) && Enabled(s, ConsumeOne(io)) && CounterBelowLast(s)
    ensures Inv(o, Step(o, s, ConsumeOne(io)))
  {
    hide OrderInv, PhaseInv, FateInv, BatchInv, DiskInv, ProcInv, RecoveryInv, UnackedList, MaybeFlush, Taken;
    var p := s.proc.value;
    ConsumeDisk(o, s, p, io);
    ConsumeProc(o, s, p, io);
    ConsumeOrder(o, s, p, io);
    ConsumeFates(o, s, p, io);
    ConsumeBatch(o, s, p, io);
  }

  lemma AcksDoneKeeps(o: Opts, s: State)
    requires Inv(o, s) && Enabled(s, AcksDone)
    ensures Inv(o, Step(o, s, AcksDone))
  {}

  lemma SkipRecoveryKeeps(o: Opts, s: State)
    requires Inv(o, s) && Enabled(s, SkipRecovery)
    ensures Inv(o, Step(o, s, SkipRecovery))
  {}

  lemma StepKeepsInv(o: Opts, s: State, e: Event)
    requires Inv(o, s) && Enabled(s, e) && CounterBelowLast(s)
    ensures Inv(o, Step(o, s, e))
  {
    hide Inv, Step;
    match e
    case Open => OpenKeeps(o, s);
    case Crash(keptRecs, keptAcks) => CrashKeeps(o, s, keptRecs, keptAcks);
    case Submit(r) => SubmitKeeps(o, s, r);
    case ConsumeOne(io) => ConsumeKeeps(o, s, io);
    case Tick => TickKeeps(o, s);
    case BatchReturned(ok) => BatchReturnedKeeps(o, s, ok);
    case AckOne(io) => AckOneKeeps(o, s, io);
    case AcksDone => AcksDoneKeeps(o, s);
    case BeginRecovery => BeginRecoveryKeeps(o, s);
    case SkipRecovery => SkipRecoveryKeeps(o, s);
  }

  // ---------------------------------------------------------------- whole runs

  ghost predicate BelowLastThroughout(states: seq<State>) {
    forall i | 0 <= i < |states| :: CounterBelowLast(states[i])
  }

  lemma {:induction false} RunKeepsInv(o: Opts, states: seq<State>, events: seq<Event>, i: nat)
    requires Run(o, states, events) && BelowLastThroughout(states) && i < |states|
    ensures Inv(o, states[i])
  {
    if i > 0 {
      RunKeepsInv(o, states, events, i - 1);
      StepKeepsInv(o, states[i - 1], events[i - 1]);
    }
  }

  /** Every record whose append returned Ok has itself been delivered or is still replayable, under its number. */
  ghost predicate NothingLost(s: State) {
    forall e | e in s.accepted :: e in s.delivered || e in UnackedList(View(s.disk))
  }

  /** Across any crashes and reopenings nothing accepted is lost. */
  lemma AtLeastOnce(o: Opts, states: seq<State>, events: seq<Event>, i: nat)
    requires Run(o, states, events) && BelowLastThroughout(states) && i < |states|
    ensures NothingLost(states[i])
  {
    RunKeepsInv(o, states, events, i);
    UnackedListFacts(View(states[i].disk));
    var s := states[i];
    forall e | e in s.accepted ensures e in s.delivered || e in UnackedList(View(s.disk)) {
      assert Logged(View(s.disk).recs, e);
      assert (e.0, e.1) == e;
    }
  }

  lemma StepKeepsHistory(o: Opts, s: State, e: Event)
    requires Enabled(s, e)
    ensures s.delivered <= Step(o, s, e).delivered && s.accepted <= Step(o, s, e).accepted
  {}

  /** What was accepted or delivered stays in the log as it was for the rest of the run, and no number is handed out
      twice: two accepted records under one number are the same record. */
  lemma {:induction false} AcceptedForGood(o: Opts, states: seq<State>, events: seq<Event>, i: nat, j: nat)
    requires Run(o, states, events) && BelowLastThroughout(states) && i <= j < |states|
    ensures states[i].accepted <= states[j].accepted && states[i].delivered <= states[j].delivered
    ensures forall e | e in states[i].accepted + states[i].delivered :: Logged(states[j].disk.durable.recs, e)
    ensures forall e, f | e in states[i].accepted + states[i].delivered
                          && f in states[j].accepted + states[j].delivered && e.0 == f.0 :: e == f
    decreases j
  {
    hide Step, View, ProcInv, PhaseInv, OrderInv, FateInv, BatchInv, RecoveryInv, UnackedList;
    RunKeepsInv(o, states, events, j);
    if i < j {
      AcceptedForGood(o, states, events, i, j - 1);
      StepKeepsHistory(o, states[j - 1], events[j - 1]);
    }
  }

  /** Every acknowledgement has a durable record that was delivered, and the next number carries neither record nor
      acknowledgement. */
  lemma NoRecordBornAcknowledged(o: Opts, states: seq<State>, events: seq<Event>, i: nat)
    requires Run(o, states, events) && BelowLastThroughout(states) && i < |states|
    ensures var s := states[i];
            forall n | n in View(s.disk).acks ::
              n in s.disk.durable.recs && (n, s.disk.durable.recs[n]) in s.delivered
    ensures var s := states[i];
            s.proc.Some? ==>
              s.proc.value.next !in View(s.disk).recs && s.proc.value.next !in View(s.disk).acks
  {
    RunKeepsInv(o, states, events, i);
    if states[i].proc.Some? {
      NextUnused(o, states[i]);
    }
  }

  lemma NextUnused(o: Opts, s: State)
    requires Inv(o, s) && s.proc.Some?
    ensures s.proc.value.next !in View(s.disk).recs && s.proc.value.next !in View(s.disk).acks
  {
    hide OrderInv, FateInv, PhaseInv;
    DurableInView(s.disk);
  }

  // Recovery has been called in this lifetime, or will not be.
  predicate PastRecoveryCall(p: Proc) {
    p.ready || (!p.task.Idle? && p.task.caller.Recovery?)
  }

  lemma SnapshotStays(o: Opts, s: State, e: Event)
    requires Enabled(s, e) && s.proc.Some? && !e.Crash? && PastRecoveryCall(s.proc.value)
    ensures var t := Step(o, s, e);
            t.proc.Some? && t.proc.value.atRecovery == s.proc.value.atRecovery && PastRecoveryCall(t.proc.value)
  {}

  lemma {:induction false} RecoverySnapshot(o: Opts, states: seq<State>, events: seq<Event>, i: nat, j: nat)
    requires Run(o, states, events) && BelowLastThroughout(states) && i < j < |states|
    requires events[i] == BeginRecovery
    requires forall k | i < k < j :: !events[k].Open? && !events[k].Crash?
    ensures states[j].proc.Some?
    ensures var p := states[j].proc.value;
            p.atRecovery == View(states[i].disk).recs && PastRecoveryCall(p)
    decreases j
  {
    hide Inv;
    assert states[j] == Step(o, states[j - 1], events[j - 1]);
    if i + 1 < j {
      RecoverySnapshot(o, states, events, i, j - 1);
      SnapshotStays(o, states[j - 1], events[j - 1]);
    }
  }

  /** Once recovery has returned Ok, every record in the log when it was called has been delivered and is durably
      acknowledged, so that no later recovery hands it over again. */
  lemma RecoveryDeliversAll(o: Opts, states: seq<State>, events: seq<Event>, i: nat, j: nat)
    requires Run(o, states, events) && BelowLastThroughout(states) && i < j < |states|
    requires events[i] == BeginRecovery
    requires forall k | i < k < j :: !events[k].Open? && !events[k].Crash?
    requires states[j].proc.Some? && states[j].proc.value.recovered
    ensures forall n | n in View(states[i].disk).recs :: (n, View(states[i].disk).recs[n]) in states[j].delivered
    ensures View(states[i].disk).recs.Keys <= states[j].disk.durable.acks
  {
    RecoverySnapshot(o, states, events, i, j);
    RunKeepsInv(o, states, events, j);
  }

  /** Within a lifetime numbers are handed over in strictly increasing order, so none twice, in submission order;
      and the batch stays below its limit whenever the loop waits. */
  lemma LifetimeOrder(o: Opts, states: seq<State>, events: seq<Event>, i: nat)
    requires Run(o, states, events) && BelowLastThroughout(states) && i < |states| && states[i].proc.Some?
    ensures var p := states[i].proc.value;
            Increasing(p.handed) && (p.task.Idle? && o.batchSize >= 1 ==> |p.pending| < o.batchSize)
    ensures var s := states[i]; var p := s.proc.value;
            forall i, j | 0 <= i < j < |p.fates| && p.fates[i].Some? && p.fates[j].Some? ::
              p.fates[i].value < p.fates[j].value
    ensures var s := states[i]; var p := s.proc.value;
            && |p.fates| <= |p.submitted| && p.submitted[|p.fates|..] == p.queue
            && forall i | 0 <= i < |p.fates| && p.fates[i].Some? ::
                 Logged(s.disk.durable.recs, (p.fates[i].value, p.submitted[i]))
  {
    RunKeepsInv(o, states, events, i);
  }

  /** A record taken from the queue is accepted, under the counter, if and only if its payload is within the limit and
      the append is flushed; only then it joins the accepted submissions. */
  lemma ConsumeAccepts(o: Opts, s: State, io: Io)
    requires Inv(o, s) && Enabled(s, ConsumeOne(io))
    ensures var p, t := s.proc.value, Step(o, s, ConsumeOne(io));
            var q, r := t.proc.value, p.queue[0];
            var added := if |r.payload| <= MAX_WAL_PAYLOAD_BYTES && io == Synced then [(p.next, r)] else [];
            && t.accepted == s.accepted + EntrySet(added)
            && |p.fates| <= |p.submitted| && |q.fates| <= |q.submitted|
            && Kept(q.fates, q.submitted) == Kept(p.fates, p.submitted) + added
  {
    hide PutRec, DiskInv, ProcInv, PhaseInv, OrderInv;
    var p := s.proc.value;
    var q := Taken(p, io);
    assert q.fates[..|p.fates|] == p.fates && p.queue[0] == p.submitted[|p.fates|];
    FlushKeepsQueue(o, q);
  }

  /** In every state of every run: the submissions that the log accepted in this lifetime, in their order and each once,
      are those the consumer has handed over followed by those that still wait in its batch. None is left out. */
  lemma AcceptedAreHandedOver(o: Opts, states: seq<State>, events: seq<Event>, i: nat)
    requires Run(o, states, events) && BelowLastThroughout(states) && i < |states| && states[i].proc.Some?
    ensures var p := states[i].proc.value;
            |p.fates| <= |p.submitted| && Kept(p.fates, p.submitted) == p.byConsumer + Waiting(p)
  {
    RunKeepsInv(o, states, events, i);
  }

  /** What an Ok of the downstream delivers is the last that the consumer handed over. */
  lemma ConsumerBatchDelivered(o: Opts, states: seq<State>, events: seq<Event>, i: nat)
    requires Run(o, states, events) && BelowLastThroughout(states) && i < |events|
    requires events[i] == BatchReturned(true) && states[i].proc.value.task.caller.Consumer?
    ensures var p, n := states[i].proc.value, |states[i].proc.value.task.batch|;
            && n <= |p.byConsumer| && p.byConsumer[|p.byConsumer| - n..] == p.pending
            && forall e | e in p.pending :: e in states[i + 1].delivered
  {
    RunKeepsInv(o, states, events, i);
  }

  // ---------------------------------------------------------------- what a submission is worth

  // However the unflushed writes fare in a crash, this record has been delivered or will be replayed.
  ghost predicate SurvivesCrashes(s: State, e: Entry) {
    forall keptRecs: set<U64>, keptAcks: set<U64> ::
      e in s.delivered || e in UnackedList(View(AfterCrash(s.disk, keptRecs, keptAcks)))
  }

  // However they fare, the record has been delivered or will be replayed under some number.
  ghost predicate RecordSurvives(s: State, r: WalRecord) {
    forall keptRecs: set<U64>, keptAcks: set<U64> ::
      exists n :: (n, r) in s.delivered || (n, r) in UnackedList(View(AfterCrash(s.disk, keptRecs, keptAcks)))
  }

  lemma AfterCrashFacts(s: State, keptRecs: set<U64>, keptAcks: set<U64>)
    requires DiskInv(s)
    ensures var log := View(AfterCrash(s.disk, keptRecs, keptAcks));
            && log.acks <= View(s.disk).acks
            && (forall n | n in s.disk.durable.recs :: Logged(log.recs, (n, s.disk.durable.recs[n])))
    ensures View(AfterCrash(s.disk, {}, {})) == s.disk.durable
  {
    assert View(AfterCrash(s.disk, {}, {})).recs == s.disk.durable.recs;
    assert View(AfterCrash(s.disk, {}, {})).acks == s.disk.durable.acks;
  }

  lemma EntrySurvivesIff(s: State, e: Entry)
    requires DiskInv(s)
    ensures SurvivesCrashes(s, e) <==> Logged(s.disk.durable.recs, e)
  {
    hide UnackedList, View, AfterCrash;
    if Logged(s.disk.durable.recs, e) {
      forall keptRecs: set<U64>, keptAcks: set<U64>
        ensures e in s.delivered || e in UnackedList(View(AfterCrash(s.disk, keptRecs, keptAcks)))
      {
        AfterCrashFacts(s, keptRecs, keptAcks);
        UnackedListFacts(View(AfterCrash(s.disk, keptRecs, keptAcks)));
        assert (e.0, e.1) == e;
      }
    }
    if SurvivesCrashes(s, e) {
      AfterCrashFacts(s, {}, {});
      UnackedListFacts(s.disk.durable);
      assert (e.0, e.1) == e;
      assert e in s.delivered || e in UnackedList(View(AfterCrash(s.disk, {}, {})));
    }
  }

  /** Exactly the records that the flushed log holds survive every crash: at any point of any run a submitted record,
      queued, refused or appended, is safe if and only if it stands there under some number. */
  lemma SubmissionSurvivesIff(o: Opts, states: seq<State>, events: seq<Event>, i: nat, r: WalRecord)
    requires Run(o, states, events) && BelowLastThroughout(states) && i < |states|
    ensures RecordSurvives(states[i], r) <==> exists n :: Logged(states[i].disk.durable.recs, (n, r))
  {
    RunKeepsInv(o, states, events, i);
    hide Run, RecordSurvives, Logged;
    RecordSurvivesIff(states[i], r);
  }

  lemma RecordSurvivesIff(s: State, r: WalRecord)
    requires DiskInv(s)
    ensures RecordSurvives(s, r) <==> exists n :: Logged(s.disk.durable.recs, (n, r))
  {
    hide UnackedList, View, AfterCrash;
    if exists n :: Logged(s.disk.durable.recs, (n, r)) {
      var n :| Logged(s.disk.durable.recs, (n, r));
      EntrySurvivesIff(s, (n, r));
      assert SurvivesCrashes(s, (n, r));
    }
    if RecordSurvives(s, r) {
      var n :| (n, r) in s.delivered || (n, r) in UnackedList(View(AfterCrash(s.disk, {}, {})));
      AfterCrashFacts(s, {}, {});
      UnackedListFacts(s.disk.durable);
      assert Logged(s.disk.durable.recs, (n, r));
    }
  }

  /** A submission that returned Ok is lost in a crash that finds it queued: here the log stays empty. */
  lemma QueuedIsLost(o: Opts, r: WalRecord) returns (states: seq<State>)
    requires o.queueDepth >= 1
    ensures Run(o, states, [Open, SkipRecovery, Submit(r), Crash({}, {})])
    ensures states[3].proc.Some? && states[3].proc.value.submitted == [r]
    ensures states[4].proc.None? && View(states[4].disk) == EMPTY_LOG && states[4].delivered == {}
    ensures !RecordSurvives(states[3], r)
  {
    var events := [Open, SkipRecovery, Submit(r), Crash({}, {})];
    var s1 := Step(o, FRESH, Open);
    var s2 := Step(o, s1, SkipRecovery);
    var s3 := Step(o, s2, Submit(r));
    var s4 := Step(o, s3, Crash({}, {}));
    states := [FRESH, s1, s2, s3, s4];
    assert s4.disk.durable.recs == map[] && s4.disk.durable.acks == {};
    RecordSurvivesIff(s3, r);
  }

  ghost predicate WithinLimit(log: LogTable) {
    forall n | n in log.recs :: |log.recs[n].payload| <= MAX_WAL_PAYLOAD_BYTES
  }

  lemma StepKeepsLimit(o: Opts, s: State, e: Event)
    requires Enabled(s, e) && WithinLimit(s.disk.durable) && WithinLimit(s.disk.dirty)
    ensures var t := Step(o, s, e); WithinLimit(t.disk.durable) && WithinLimit(t.disk.dirty)
  {
    hide UnackedList, MaybeFlush, Taken;
  }

  /** A payload over the limit never reaches the log, in any state of any run, although its submission returns Ok. */
  lemma {:induction false} OversizedNeverLogged(o: Opts, states: seq<State>, events: seq<Event>, i: nat)
    requires Run(o, states, events) && i < |states|
    ensures WithinLimit(states[i].disk.durable) && WithinLimit(states[i].disk.dirty)
  {
    if i > 0 {
      OversizedNeverLogged(o, states, events, i - 1);
      StepKeepsLimit(o, states[i - 1], events[i - 1]);
    }
  }

  /** The consumer drops it without a crash: it was submitted, it has left the queue, and nothing is in the log. */
  lemma OversizedIsDropped(o: Opts, r: WalRecord, io: Io) returns (states: seq<State>)
    requires o.queueDepth >= 1 && o.batchSize >= 1 && |r.payload| > MAX_WAL_PAYLOAD_BYTES
    ensures Run(o, states, [Open, SkipRecovery, Submit(r), ConsumeOne(io)])
    ensures states[4].proc.Some?
    ensures var p := states[4].proc.value; p.submitted == [r] && p.fates == [None] && p.queue == [] && p.pending == []
    ensures View(states[4].disk) == EMPTY_LOG && states[4].delivered == {} && !RecordSurvives(states[4], r)
  {
    var s1 := Step(o, FRESH, Open);
    var s2 := Step(o, s1, SkipRecovery);
    var s3 := Step(o, s2, Submit(r));
    var s4 := Step(o, s3, ConsumeOne(io));
    states := [FRESH, s1, s2, s3, s4];
    RecordSurvivesIff(s4, r);
  }

  // ---------------------------------------------------------------- the end of the counter

  /** Reopening resumes at an unused number exactly when the last and the zeroth number are not both taken. */
  lemma OpenFreshIff(log: LogTable)
    requires log.acks <= log.recs.Keys
    ensures var n := Opened(Disk(log, EMPTY_LOG)).next;
            (n !in log.recs && n !in log.acks) <==> !(LAST_SEQ in log.recs && 0 in log.recs)
  {
    var g := Greatest(log.recs.Keys);
    if LAST_SEQ in log.recs {
      assert LAST_SEQ <= g;
      assert Successor(g) == 0;
    } else {
      assert g != LAST_SEQ;
      assert Successor(g) == g + 1;
    }
  }

  /** Whatever the counter: one more accepted record leaves nothing lost if and only if its number was not that of
      another accepted record still to be delivered, nor that of an acknowledgement of something else. A number that
      the log does not use is always good. */
  lemma AppendLosesNothingIff(o: Opts, s: State)
    requires Enabled(s, ConsumeOne(Synced)) && NothingLost(s)
    requires |s.proc.value.queue[0].payload| <= MAX_WAL_PAYLOAD_BYTES
    ensures var n, r := s.proc.value.next, s.proc.value.queue[0];
            && (NothingLost(Step(o, s, ConsumeOne(Synced))) <==>
                  && (forall e | e in s.accepted && e.0 == n :: e in s.delivered || e.1 == r)
                  && (n !in View(s.disk).acks || (n, r) in s.delivered))
            && (n !in View(s.disk).recs && n !in View(s.disk).acks ==> NothingLost(Step(o, s, ConsumeOne(Synced))))
  {
    hide UnackedList, MaybeFlush, Taken;
    var n, r, t := s.proc.value.next, s.proc.value.queue[0], Step(o, s, ConsumeOne(Synced));
    UnackedListFacts(View(s.disk));
    UnackedListFacts(View(t.disk));
    assert View(t.disk).recs == View(s.disk).recs[n := r] && View(t.disk).acks == View(s.disk).acks;
    assert (n, r) in t.accepted;
    forall e | e in t.accepted
      ensures e in UnackedList(View(t.disk)) <==>
                if e.0 == n then e.1 == r && n !in View(s.disk).acks else e in UnackedList(View(s.disk))
    {
      assert (e.0, e.1) == e;
    }
  }

  /** With both taken, the next accepted record replaces record zero: that one was accepted, was never delivered and
      will not be replayed. So without the bound on the counter at-least-once fails. */
  lemma WrapLosesRecord(o: Opts, a: WalRecord, b: WalRecord, c: WalRecord)
    requires |c.payload| <= MAX_WAL_PAYLOAD_BYTES && a != c
    ensures var log := LogTable(map[0 := a, LAST_SEQ := b], {});
            var p := Opened(Disk(log, EMPTY_LOG)).(ready := true, queue := [c], submitted := [c]);
            var s := State(Disk(log, EMPTY_LOG), Some(p), {(0, a), (LAST_SEQ, b)}, {});
            var t := Step(o, s, ConsumeOne(Synced));
            && (forall e | e in s.accepted :: e in UnackedList(View(s.disk)))
            && (0, a) in t.accepted && (0, a) !in t.delivered && (0, a) !in UnackedList(View(t.disk))
  {
    hide UnackedList;
    var log := LogTable(map[0 := a, LAST_SEQ := b], {});
    var d := Disk(log, EMPTY_LOG);
    OpenFreshIff(log);
    assert 0 in log.recs && LAST_SEQ in log.recs && Opened(d).next == 0;
    UnackedListFacts(View(d));
    UnackedListFacts(View(PutRec(d, 0, c, Synced)));
  }

  // ---------------------------------------------------------------- recovery beside the consumer

  /** What could go wrong if recovery ran beside the consumer, on a store whose crash may keep a later write without an
      earlier one: a record whose append failed at the flush is replayed and acknowledged, only the acknowledgement
      survives, and the next record accepted under the number is never replayed. */
  lemma OverlapBearsAcknowledged(r: WalRecord, c: WalRecord)
    ensures var failed := PutRec(Disk(EMPTY_LOG, EMPTY_LOG), 1, r, FlushFailed);
            var acked := PutAck(failed, 1, FlushFailed);
            var crashed := AfterCrash(acked, {}, {1});
            && (1, r) in UnackedList(View(failed))
            && Opened(crashed).next == 1
            && (1, c) !in UnackedList(View(PutRec(crashed, 1, c, Synced)))
  {
    var failed := PutRec(Disk(EMPTY_LOG, EMPTY_LOG), 1, r, FlushFailed);
    var crashed := AfterCrash(PutAck(failed, 1, FlushFailed), {}, {1});
    UnackedListFacts(View(failed));
    UnackedListFacts(View(PutRec(crashed, 1, c, Synced)));
    assert crashed.durable.recs.Keys == {};
  }

  datatype Write = WriteRec(n: U64, record: WalRecord) | WriteAck(n: U64)

  // The log that unflushed writes make, one after another.
  function Written(ws: seq<Write>): LogTable {
    if |ws| == 0 then EMPTY_LOG
    else
      var log := Written(ws[..|ws| - 1]);
      match ws[|ws| - 1]
      case WriteRec(n, r) => log.(recs := log.recs[n := r])
      case WriteAck(n) => log.(acks := log.acks + {n})
  }

  // An acknowledgement is only written when the log shows its record.
  ghost predicate AcksAfterRecords(durable: LogTable, ws: seq<Write>) {
    forall i | 0 <= i < |ws| && ws[i].WriteAck? :: ws[i].n in Merge(durable, Written(ws[..i])).recs
  }

  /** On a store whose crash keeps the first so many unflushed writes that cannot happen: every acknowledgement that
      survives has its record, also when recovery and the consumer write in turns. */
  lemma {:induction false} PrefixKeepsRecords(durable: LogTable, ws: seq<Write>, k: nat)
    requires durable.acks <= durable.recs.Keys && AcksAfterRecords(durable, ws) && k <= |ws|
    ensures Merge(durable, Written(ws[..k])).acks <= Merge(durable, Written(ws[..k])).recs.Keys
  {
    if k > 0 {
      PrefixKeepsRecords(durable, ws, k - 1);
      assert ws[..k][..k - 1] == ws[..k - 1];
    }
  }
}
