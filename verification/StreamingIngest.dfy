/** The ingest pipeline object: a bounded queue, a log and a batch, each method a run of the event machine. */
module StreamingIngest {
  import opened Wrappers
  import opened ByteStrings
  import opened WalKeys
  import opened WriteAheadLog
  import opened IngestModel

  datatype IngestError = Backpressure | ScanFailed | FlushRejected | AckFailed

  // ---------------------------------------------------------------- runs of events from any state

  ghost predicate CanRun(o: Opts, s: State, es: seq<Event>)
    decreases |es|, 0
  {
    |es| > 0 ==>
      var k := |es| - 1;
      CanRun(o, s, es[..k]) && Enabled(After(o, s, es[..k]), es[k])
  }

  ghost function After(o: Opts, s: State, es: seq<Event>): State
    requires CanRun(o, s, es)
    decreases |es|, 1
  {
    if |es| == 0 then s else Step(o, After(o, s, es[..|es| - 1]), es[|es| - 1])
  }

  lemma RunOneMore(o: Opts, s: State, es: seq<Event>, e: Event)
    requires CanRun(o, s, es) && Enabled(After(o, s, es), e)
    ensures CanRun(o, s, es + [e]) && After(o, s, es + [e]) == Step(o, After(o, s, es), e)
  {}

  function Submissions(records: seq<WalRecord>): seq<Event> {
    seq(|records|, i requires 0 <= i < |records| => Submit(records[i]))
  }

  function AckEvents(acks: seq<Io>): seq<Event> {
    seq(|acks|, i requires 0 <= i < |acks| => AckOne(acks[i]))
  }

  /** The downstream answer and, when it is Ok, one acknowledgement a record whatever each one returns. */
  function FlushEvents(ok: bool, acks: seq<Io>): seq<Event> {
    if ok then [BatchReturned(true)] + AckEvents(acks) + [AcksDone] else [BatchReturned(false)]
  }

  // Acknowledgements up to and including the first that fails.
  function UpToFailure(acks: seq<Io>): seq<Io> {
    if |acks| == 0 then []
    else if acks[0].Synced? then [acks[0]] + UpToFailure(acks[1..])
    else [acks[0]]
  }

  predicate AllSynced(acks: seq<Io>) {
    forall io | io in acks :: io.Synced?
  }

  /** Recovery: an empty list ends it at once; a refused batch or a failing acknowledgement ends it with an error. */
  function RecoveryEvents(ok: bool, acks: seq<Io>): seq<Event> {
    if |acks| == 0 then [BeginRecovery]
    else if !ok then [BeginRecovery, BatchReturned(false)]
    else [BeginRecovery, BatchReturned(true)] + AckEvents(UpToFailure(acks))
         + (if AllSynced(acks) then [AcksDone] else [])
  }

  // What an append adds to the batch.
  function Accepted(n: U64, record: WalRecord, io: Io): seq<Entry> {
    if |record.payload| <= MAX_WAL_PAYLOAD_BYTES && io.Synced? then [(n, record)] else []
  }

  class Pipeline {
    const wal: Wal
    const opts: Opts
    var queue: seq<WalRecord>
    var pending: seq<Entry>
    ghost var m: State

    ghost predicate Valid()
      reads this, wal
    {
      && m.proc.Some?
      && Holds(wal.durable, wal.mac, wal.machineKey, m.disk.durable)
      && Holds(wal.dirty, wal.mac, wal.machineKey, m.disk.dirty)
      && m.proc.value.next == wal.nextSeq
      && m.proc.value.queue == queue
      && m.proc.value.pending == pending
    }

    ghost predicate Serving()
      reads this
    {
      m.proc.Some? && m.proc.value.ready && m.proc.value.task.Idle?
    }

    /** Start over an opened log; the queue and the batch are empty. */
    constructor (wal: Wal, opts: Opts, ghost before: State)
      requires before.proc.None?
      requires Holds(wal.durable, wal.mac, wal.machineKey, before.disk.durable)
      requires Holds(wal.dirty, wal.mac, wal.machineKey, before.disk.dirty)
      requires wal.nextSeq == Successor(MaxSeq(wal.durable))
      ensures Valid() && this.wal == wal && this.opts == opts
      ensures m == Step(opts, before, Open)
    {
      this.wal := wal;
      this.opts := opts;
      queue := [];
      pending := [];
      m := Step(opts, before, Open);
      new;
      MaxSeqExact(wal.durable, before.disk.durable);
    }

    /** A full queue refuses the record and nothing changes; otherwise it joins the queue, not yet durable. */
    method Submit(record: WalRecord) returns (r: Result<(), IngestError>)
      requires Valid()
      modifies this`queue, this`m
      ensures Valid()
      ensures r == if |old(queue)| >= opts.queueDepth then Err(Backpressure) else Ok(())
      ensures queue == if r.Ok? then old(queue) + [record] else old(queue)
      ensures m == Step(opts, old(m), IngestModel.Submit(record))
    {
      m := Step(opts, m, IngestModel.Submit(record));
      if |queue| >= opts.queueDepth {
        return Err(Backpressure);
      }
      queue := queue + [record];
      r := Ok(());
    }

    // Submissions that come in while the consumer awaits the downstream.
    method SubmitAll(records: seq<WalRecord>)
      requires Valid()
      modifies this`queue, this`m
      ensures Valid() && m.proc.value.task == old(m).proc.value.task && m.proc.value.ready == old(m).proc.value.ready
      ensures m.disk == old(m).disk && m.delivered == old(m).delivered
      ensures CanRun(opts, old(m), Submissions(records)) && m == After(opts, old(m), Submissions(records))
    {
      hide CanRun, After, Holds;
      ghost var start := m;
      var i := 0;
      NoSubmissions(opts, m);
      assert records[..0] == [];
      while i < |records|
        invariant 0 <= i <= |records| && Valid()
        invariant m.proc.value.task == start.proc.value.task && m.proc.value.ready == start.proc.value.ready
        invariant m.disk == start.disk && m.delivered == start.delivered
        invariant CanRun(opts, start, Submissions(records[..i])) && m == After(opts, start, Submissions(records[..i]))
      {
        RunOneMore(opts, start, Submissions(records[..i]), IngestModel.Submit(records[i]));
        assert Submissions(records[..i + 1]) == Submissions(records[..i]) + [IngestModel.Submit(records[i])];
        var _ := Submit(records[i]);
        i := i + 1;
      }
      assert records[..i] == records;
    }

    // One acknowledgement on the log, and the same on the machine.
    method AckNext(n: U64, io: Io) returns (r: Result<(), WalError>)
      requires Valid() && m.proc.value.task.Acking? && |m.proc.value.task.left| > 0 && m.proc.value.task.left[0] == n
      modifies wal, this`m
      ensures Valid() && m == Step(opts, old(m), AckOne(io))
      ensures r.Ok? <==> io.Synced?
      ensures m.delivered == old(m).delivered && old(m).disk.durable.acks <= m.disk.durable.acks
      ensures r.Ok? ==> n in m.disk.durable.acks
      ensures var p, q := old(m).proc.value, m.proc.value;
              if p.task.caller.Recovery? && r.Err? then q == Finish(p, Recovery, false)
              else q == p.(task := Acking(p.task.left[1..], p.task.caller))
    {
      hide Holds, AckKey;
      HoldsMerge(wal.durable, wal.dirty, wal.mac, wal.machineKey, m.disk.durable, m.disk.dirty);
      HoldsAck(wal.durable + wal.dirty, wal.mac, wal.machineKey, View(m.disk), n);
      HoldsAck(wal.dirty, wal.mac, wal.machineKey, m.disk.dirty, n);
      m := Step(opts, m, AckOne(io));
      r := wal.Ack(n, io);
      HoldsNothing(wal.mac, wal.machineKey);
    }

    /** Hand the batch downstream while submissions arrive. When that returns Ok, every record of it is delivered and
        acknowledged as far as the store lets it; the batch is forgotten either way. */
    method FlushPending(ok: bool, acks: seq<Io>, arrivals: seq<WalRecord>)
      requires Valid() && m.proc.value.ready && m.proc.value.task == Awaiting(pending, Consumer)
      requires |acks| == |pending|
      modifies this`queue, this`pending, this`m, wal
      ensures Valid() && Serving() && pending == []
      ensures m.delivered == old(m).delivered + (if ok then EntrySet(old(pending)) else {})
      ensures ok ==> forall i | 0 <= i < |acks| && acks[i].Synced? :: old(pending)[i].0 in m.disk.durable.acks
      ensures CanRun(opts, old(m), Submissions(arrivals))
      ensures var s := After(opts, old(m), Submissions(arrivals));
              CanRun(opts, s, FlushEvents(ok, acks)) && m == After(opts, s, FlushEvents(ok, acks))
    {
      hide Step, CanRun, After, Holds, PutAck, Finish;
      SubmitAll(arrivals);
      ghost var start := m;
      ghost var batch := pending;
      ConsumerEvents(opts, m, ok, acks);
      m := Step(opts, m, BatchReturned(ok));
      if ok {
        var i := 0;
        while i < |pending|
          invariant 0 <= i <= |pending| && pending == batch && Valid()
          invariant m.proc.value.ready && m.proc.value.task == Acking(Seqs(batch)[i..], Consumer)
          invariant CanRun(opts, start, AckPrefix(acks, i)) && m == After(opts, start, AckPrefix(acks, i))
          invariant m.delivered == start.delivered + EntrySet(batch)
          invariant forall k | 0 <= k < i && acks[k].Synced? :: batch[k].0 in m.disk.durable.acks
        {
          AckPrefixGrows(opts, start, acks, i);
          var _ := AckNext(pending[i].0, acks[i]);
          i := i + 1;
        }
        ConsumerEnds(opts, start, m, acks);
        m := Step(opts, m, AcksDone);
      }
      pending := [];
    }

    /** One record received: append it, keep it if the append returned Ok, and flush a full batch. An accepted record
        is in the batch afterwards or, if that made it full, has been handed over with it. */
    method Receive(io: Io, ok: bool, acks: seq<Io>, arrivals: seq<WalRecord>)
      requires Valid() && Serving() && |queue| > 0 && |acks| > |pending|
      modifies this`queue, this`pending, this`m, wal
      ensures Valid() && Serving()
      ensures var batch := old(pending) + Accepted(old(wal.nextSeq), old(queue)[0], io);
              && pending == (if |batch| < opts.batchSize then batch else [])
              && m.delivered == old(m).delivered + (if ok && |batch| >= opts.batchSize then EntrySet(batch) else {})
      ensures var s := Step(opts, old(m), ConsumeOne(io));
              if s.proc.value.task.Idle? then m == s
              else CanRun(opts, s, Submissions(arrivals)) &&
                   var t, es := After(opts, s, Submissions(arrivals)), FlushEvents(ok, acks[..|s.proc.value.pending|]);
                   CanRun(opts, t, es) && m == After(opts, t, es)
    {
      hide CanRun, After, FlushEvents, AckEvents, Submissions, Seqs, EntrySet, Holds, RecKey, TagInput;
      var record := queue[0];
      queue := queue[1..];
      AppendMatches(wal, m, record, io);
      m := Step(opts, m, ConsumeOne(io));
      var r := wal.Append(record, io);
      HoldsNothing(wal.mac, wal.machineKey);
      if r.Ok? {
        pending := pending + [(r.value, record)];
      }
      assert old(pending) + [] == old(pending);
      assert pending == old(pending) + Accepted(old(wal.nextSeq), old(queue)[0], io);
      if |pending| >= opts.batchSize {
        FlushPending(ok, acks[..|pending|], arrivals);
      }
    }

    /** The interval fires: flush what there is. The closing channel does the same before the task ends. */
    method OnTick(ok: bool, acks: seq<Io>, arrivals: seq<WalRecord>)
      requires Valid() && Serving() && |acks| == |pending|
      modifies this`queue, this`pending, this`m, wal
      ensures Valid() && Serving() && pending == []
      ensures m.delivered == old(m).delivered + (if ok then EntrySet(old(pending)) else {})
      ensures if |old(pending)| == 0 then m == old(m)
              else var s := Step(opts, old(m), Tick);
                   CanRun(opts, s, Submissions(arrivals)) &&
                   var t := After(opts, s, Submissions(arrivals));
                   CanRun(opts, t, FlushEvents(ok, acks)) && m == After(opts, t, FlushEvents(ok, acks))
    {
      hide CanRun, After, FlushEvents, AckEvents, Submissions, Seqs, Holds;
      if |pending| > 0 {
        m := Step(opts, m, Tick);
        FlushPending(ok, acks, arrivals);
      }
    }

    /** Replay every unacknowledged record as one batch, then acknowledge them until one acknowledgement fails; after an
        Ok each of them has been delivered and is durably acknowledged. A read of the store that fails in front of some
        entry ends it before anything is handed over. */
    method RecoverOnStartup(fault: Option<nat>, ok: bool, acks: seq<Io>) returns (r: Result<(), IngestError>)
      requires Valid() && !m.proc.value.ready && m.proc.value.task.Idle?
      requires |acks| == |UnackedList(View(m.disk))|
      modifies this`m, wal
      ensures Valid() && Serving()
      ensures r == Err(ScanFailed) <==> ScanFails(old(m), fault)
      ensures CanRun(opts, old(m), StartEvents(old(m), fault, ok, acks))
      ensures m == After(opts, old(m), StartEvents(old(m), fault, ok, acks))
      ensures r != Err(ScanFailed) ==> (r.Ok? <==> m.proc.value.recovered)
      ensures r.Ok? ==> forall e | e in UnackedList(View(old(m).disk)) :: e in m.delivered && e.0 in m.disk.durable.acks
    {
      hide *;
      StartIs(m, fault, ok, acks);
      var scan := ScanLog(fault);
      if scan.Err? {
        Skip();
        return Err(ScanFailed);
      }
      r := Replay(scan.value, ok, acks);
    }

    // The replay list of an untampered log, unless a read fails.
    method ScanLog(fault: Option<nat>) returns (scan: Result<seq<Entry>, WalError>)
      requires Valid()
      ensures scan == if ScanFails(m, fault) then Err(StoreFailed) else Ok(UnackedList(View(m.disk)))
    {
      hide Holds, IterFrom, Scanned, UnackedList, ScanFails;
      LogScanned(wal, m, fault);
      scan := wal.UnackedRecords(fault);
    }

    // The service starts without a recovery.
    method Skip()
      requires Valid() && !m.proc.value.ready && m.proc.value.task.Idle?
      modifies this`m
      ensures Valid() && Serving()
      ensures CanRun(opts, old(m), [SkipRecovery]) && m == After(opts, old(m), [SkipRecovery])
    {
      hide Holds;
      assert [SkipRecovery][..0] == [];
      m := Step(opts, m, SkipRecovery);
    }

    // One batch, then its acknowledgements.
    method Replay(unacked: seq<Entry>, ok: bool, acks: seq<Io>) returns (r: Result<(), IngestError>)
      requires Valid() && !m.proc.value.ready && m.proc.value.task.Idle?
      requires unacked == UnackedList(View(m.disk)) && |acks| == |unacked|
      modifies this`m, wal
      ensures Valid() && Serving() && r != Err(ScanFailed)
      ensures CanRun(opts, old(m), RecoveryEvents(ok, acks)) && m == After(opts, old(m), RecoveryEvents(ok, acks))
      ensures r.Ok? <==> m.proc.value.recovered
      ensures r.Ok? ==> forall e | e in unacked :: e in m.delivered && e.0 in m.disk.durable.acks
    {
      hide CanRun, After, Holds, AckEvents, Step, UpToFailure, UnackedList, PutAck;
      ghost var start := m;
      RecoveryBegins(opts, m);
      m := Step(opts, m, BeginRecovery);
      if |unacked| == 0 {
        return Ok(());
      }
      RecoveryAnswered(opts, start, m, ok);
      m := Step(opts, m, BatchReturned(ok));
      if !ok {
        return Err(FlushRejected);
      }
      var i := 0;
      RecoveryPrefixStarts(acks);
      while i < |unacked|
        invariant 0 <= i <= |unacked| && Valid() && AllSynced(acks[..i])
        invariant !m.proc.value.ready && m.proc.value.task == Acking(Seqs(unacked)[i..], Recovery)
        invariant CanRun(opts, start, RecoveryPrefix(acks[..i])) && m == After(opts, start, RecoveryPrefix(acks[..i]))
        invariant EntrySet(unacked) <= m.delivered
        invariant forall k | 0 <= k < i :: unacked[k].0 in m.disk.durable.acks
      {
        RecoveryPrefixGrows(opts, start, acks, i);
        var a := AckNext(unacked[i].0, acks[i]);
        if a.Err? {
          RecoveryStops(opts, start, acks, i);
          return Err(AckFailed);
        }
        i := i + 1;
      }
      RecoveryEnds(opts, start, m, acks);
      m := Step(opts, m, AcksDone);
      r := Ok(());
    }
  }

  // The stores that each outcome of an append leaves hold the logs that the machine steps to.
  lemma AppendMatches(wal: Wal, s: State, r: WalRecord, io: Io)
    requires s.proc.Some? && s.proc.value.next == wal.nextSeq
    requires Holds(wal.durable, wal.mac, wal.machineKey, s.disk.durable)
    requires Holds(wal.dirty, wal.mac, wal.machineKey, s.disk.dirty)
    ensures var n := wal.nextSeq; var k, v := RecKey(n), Stamp(wal.mac, wal.machineKey, r);
            var d := PutRec(s.disk, n, r, io);
            && (io.InsertFailed? ==> d == s.disk)
            && (io.FlushFailed? ==> d.durable == s.disk.durable
                                    && Holds(wal.dirty[k := v], wal.mac, wal.machineKey, d.dirty))
            && (io.Synced? ==> d.dirty == EMPTY_LOG
                               && Holds((wal.durable + wal.dirty)[k := v], wal.mac, wal.machineKey, d.durable))
  {
    hide Holds, RecKey, Stamp;
    HoldsMerge(wal.durable, wal.dirty, wal.mac, wal.machineKey, s.disk.durable, s.disk.dirty);
    HoldsRecord(wal.durable + wal.dirty, wal.mac, wal.machineKey, View(s.disk), wal.nextSeq, r);
    HoldsRecord(wal.dirty, wal.mac, wal.machineKey, s.disk.dirty, wal.nextSeq, r);
  }

  // The scan reads every entry of the log, and looks for one more.
  ghost predicate ScanFails(s: State, fault: Option<nat>) {
    fault.Some? && fault.value <= |NumbersFrom(View(s.disk), 0)|
  }

  // A failed scan starts the service without a recovery.
  ghost function StartEvents(s: State, fault: Option<nat>, ok: bool, acks: seq<Io>): seq<Event> {
    if ScanFails(s, fault) then [SkipRecovery] else RecoveryEvents(ok, acks)
  }

  lemma StartIs(s: State, fault: Option<nat>, ok: bool, acks: seq<Io>)
    ensures StartEvents(s, fault, ok, acks) == if ScanFails(s, fault) then [SkipRecovery] else RecoveryEvents(ok, acks)
  {}

  lemma LogScanned(wal: Wal, s: State, fault: Option<nat>)
    requires Holds(wal.durable, wal.mac, wal.machineKey, s.disk.durable)
    requires Holds(wal.dirty, wal.mac, wal.machineKey, s.disk.dirty)
    ensures Scanned(IterFrom(wal.View(), wal.mac, wal.machineKey, 0), wal.View(), fault)
         == if ScanFails(s, fault) then Err(StoreFailed) else Ok(UnackedList(View(s.disk)))
  {
    hide Holds, IterFrom, Unacked, UnackedList, NumbersFrom;
    HoldsMerge(wal.durable, wal.dirty, wal.mac, wal.machineKey, s.disk.durable, s.disk.dirty);
    ScannedExact(wal.View(), wal.mac, wal.machineKey, View(s.disk), fault);
  }

  lemma NoSubmissions(o: Opts, s: State)
    ensures Submissions([]) == [] && CanRun(o, s, []) && After(o, s, []) == s
  {}

  // A recovery under way: the batch was delivered and these acknowledgements were made.
  function RecoveryPrefix(acks: seq<Io>): seq<Event> {
    [BeginRecovery, BatchReturned(true)] + AckEvents(acks)
  }

  lemma RecoveryBegins(o: Opts, s: State)
    requires s.proc.Some? && !s.proc.value.ready && s.proc.value.task.Idle?
    ensures var batch := UnackedList(View(s.disk));
            var t := Step(o, s, BeginRecovery);
            && CanRun(o, s, [BeginRecovery]) && t == After(o, s, [BeginRecovery])
            && t.disk == s.disk && t.proc.Some?
            && t.proc.value.next == s.proc.value.next
            && t.proc.value.queue == s.proc.value.queue && t.proc.value.pending == s.proc.value.pending
            && (if |batch| == 0 then t.proc.value.ready && t.proc.value.recovered && t.proc.value.task.Idle?
                else !t.proc.value.ready && t.proc.value.task == Awaiting(batch, Recovery))
  {}

  lemma RecoveryAnswered(o: Opts, s: State, t: State, ok: bool)
    requires CanRun(o, s, [BeginRecovery]) && t == After(o, s, [BeginRecovery])
    requires t.proc.Some? && !t.proc.value.ready && t.proc.value.task.Awaiting? && t.proc.value.task.caller.Recovery?
    ensures Enabled(t, BatchReturned(ok))
    ensures var u := Step(o, t, BatchReturned(ok));
            && CanRun(o, s, [BeginRecovery, BatchReturned(ok)])
            && u == After(o, s, [BeginRecovery, BatchReturned(ok)])
            && u.disk == t.disk && (ok ==> EntrySet(t.proc.value.task.batch) <= u.delivered)
            && u.proc == Some(if ok then t.proc.value.(task := Acking(Seqs(t.proc.value.task.batch), Recovery))
                              else t.proc.value.(task := Idle, ready := true, recovered := false))
  {}

  lemma RecoveryPrefixStarts(acks: seq<Io>)
    ensures RecoveryPrefix(acks[..0]) == [BeginRecovery, BatchReturned(true)]
  {}

  lemma RecoveryPrefixGrows(o: Opts, s: State, acks: seq<Io>, i: nat)
    requires i < |acks| && CanRun(o, s, RecoveryPrefix(acks[..i]))
    requires var t := After(o, s, RecoveryPrefix(acks[..i]));
             t.proc.Some? && t.proc.value.task.Acking? && |t.proc.value.task.left| > 0
    ensures CanRun(o, s, RecoveryPrefix(acks[..i + 1]))
    ensures After(o, s, RecoveryPrefix(acks[..i + 1]))
         == Step(o, After(o, s, RecoveryPrefix(acks[..i])), AckOne(acks[i]))
  {
    RunOneMore(o, s, RecoveryPrefix(acks[..i]), AckOne(acks[i]));
    assert RecoveryPrefix(acks[..i + 1]) == RecoveryPrefix(acks[..i]) + [AckOne(acks[i])];
  }

  lemma {:induction false} StopsAtFailure(acks: seq<Io>, i: nat)
    requires i < |acks| && AllSynced(acks[..i]) && !acks[i].Synced?
    ensures UpToFailure(acks) == acks[..i + 1] && !AllSynced(acks)
  {
    if i > 0 {
      assert acks[..i][0] in acks[..i];
      assert acks[1..][..i - 1] == acks[..i][1..];
      StopsAtFailure(acks[1..], i - 1);
      assert acks[..i + 1] == [acks[0]] + acks[1..][..i];
    }
    assert acks[i] in acks;
  }

  lemma {:induction false} NeverStops(acks: seq<Io>)
    requires AllSynced(acks)
    ensures UpToFailure(acks) == acks
  {
    if |acks| > 0 {
      NeverStops(acks[1..]);
    }
  }

  lemma RecoveryStops(o: Opts, s: State, acks: seq<Io>, i: nat)
    requires i < |acks| && AllSynced(acks[..i]) && !acks[i].Synced?
    ensures RecoveryEvents(true, acks) == RecoveryPrefix(acks[..i + 1])
  {
    StopsAtFailure(acks, i);
  }

  lemma RecoveryEnds(o: Opts, s: State, t: State, acks: seq<Io>)
    requires |acks| > 0 && AllSynced(acks[..|acks|])
    requires CanRun(o, s, RecoveryPrefix(acks[..|acks|])) && t == After(o, s, RecoveryPrefix(acks[..|acks|]))
    requires t.proc.Some? && t.proc.value.task == Acking([], Recovery)
    ensures CanRun(o, s, RecoveryEvents(true, acks))
    ensures After(o, s, RecoveryEvents(true, acks)) == Step(o, t, AcksDone)
    ensures Step(o, t, AcksDone) == t.(proc := Some(Finish(t.proc.value, Recovery, true)))
    ensures Finish(t.proc.value, Recovery, true) == t.proc.value.(task := Idle, ready := true, recovered := true)
  {
    assert acks[..|acks|] == acks;
    NeverStops(acks);
    RunOneMore(o, s, RecoveryPrefix(acks), AcksDone);
  }

  // The downstream answer Ok and the first i acknowledgements.
  function AckPrefix(acks: seq<Io>, i: nat): seq<Event>
    requires i <= |acks|
  {
    [BatchReturned(true)] + AckEvents(acks[..i])
  }

  lemma ConsumerEvents(o: Opts, s: State, ok: bool, acks: seq<Io>)
    requires s.proc.Some? && s.proc.value.ready
    requires s.proc.value.task.Awaiting? && s.proc.value.task.caller.Consumer?
    ensures var t := Step(o, s, BatchReturned(ok));
            && CanRun(o, s, [BatchReturned(ok)]) && t == After(o, s, [BatchReturned(ok)])
            && t.disk == s.disk
            && t.delivered == s.delivered + (if ok then EntrySet(s.proc.value.task.batch) else {})
            && t.proc == Some(if ok then s.proc.value.(task := Acking(Seqs(s.proc.value.task.batch), Consumer))
                              else s.proc.value.(task := Idle, pending := []))
    ensures AckPrefix(acks, 0) == [BatchReturned(true)]
  {}

  lemma AckPrefixGrows(o: Opts, s: State, acks: seq<Io>, i: nat)
    requires i < |acks| && CanRun(o, s, AckPrefix(acks, i))
    requires var t := After(o, s, AckPrefix(acks, i));
             t.proc.Some? && t.proc.value.task.Acking? && |t.proc.value.task.left| > 0
    ensures CanRun(o, s, AckPrefix(acks, i + 1))
    ensures After(o, s, AckPrefix(acks, i + 1)) == Step(o, After(o, s, AckPrefix(acks, i)), AckOne(acks[i]))
  {
    RunOneMore(o, s, AckPrefix(acks, i), AckOne(acks[i]));
    assert AckPrefix(acks, i + 1) == AckPrefix(acks, i) + [AckOne(acks[i])];
  }

  lemma ConsumerEnds(o: Opts, s: State, t: State, acks: seq<Io>)
    requires CanRun(o, s, AckPrefix(acks, |acks|)) && t == After(o, s, AckPrefix(acks, |acks|))
    requires t.proc.Some? && t.proc.value.task == Acking([], Consumer)
    ensures CanRun(o, s, FlushEvents(true, acks))
    ensures After(o, s, FlushEvents(true, acks)) == Step(o, t, AcksDone)
    ensures Step(o, t, AcksDone) == t.(proc := Some(t.proc.value.(task := Idle, pending := [])))
  {
    assert acks[..|acks|] == acks;
    RunOneMore(o, s, AckPrefix(acks, |acks|), AcksDone);
  }

  lemma HoldsNothing(mac: Mac, key: Bytes)
    ensures Holds(map[], mac, key, EMPTY_LOG)
  {}
}
