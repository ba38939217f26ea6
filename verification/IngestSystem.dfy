/** The pipeline object inside whole runs: what a crash leaves of its store, and what a reopened store replays. */
module IngestSystem {
  import opened Wrappers
  import opened ByteStrings
  import opened WalKeys
  import opened WriteAheadLog
  import opened IngestModel
  import opened StreamingIngest

  // ---------------------------------------------------------------- runs that a method call extends

  function Last(states: seq<State>): State
    requires |states| > 0
  {
    states[|states| - 1]
  }

  /** A run of the machine goes on with the events that a method call stands for. */
  lemma {:induction false} RunGoesOn(o: Opts, states: seq<State>, events: seq<Event>, es: seq<Event>)
    returns (more: seq<State>)
    requires Run(o, states, events) && CanRun(o, Last(states), es)
    ensures |more| == |es| && Run(o, states + more, events + es)
    ensures Last(states + more) == After(o, Last(states), es)
  {
    if |es| == 0 {
      more := [];
      assert states + more == states && events + es == events;
    } else {
      var k := |es| - 1;
      var front := RunGoesOn(o, states, events, es[..k]);
      var t := Step(o, Last(states + front), es[k]);
      RunOneStep(o, states + front, events + es[..k], es[k]);
      more := front + [t];
      assert states + more == (states + front) + [t];
      assert events + es == (events + es[..k]) + [es[k]];
    }
  }

  lemma RunOneStep(o: Opts, states: seq<State>, events: seq<Event>, e: Event)
    requires Run(o, states, events) && Enabled(Last(states), e)
    ensures Run(o, states + [Step(o, Last(states), e)], events + [e])
  {
    hide Step, Enabled;
    var longer, all := states + [Step(o, Last(states), e)], events + [e];
    forall i | 0 <= i < |all| ensures Enabled(longer[i], all[i]) && longer[i + 1] == Step(o, longer[i], all[i]) {
      if i < |events| {
        assert longer[i] == states[i] && longer[i + 1] == states[i + 1] && all[i] == events[i];
      }
    }
  }

  // ---------------------------------------------------------------- crashes of the byte store

  function Part(t: ByteTable, kept: set<Bytes>): ByteTable {
    map k | k in t && k in kept :: t[k]
  }

  /** What a crash leaves of a store: what was flushed, and the writes under some of the keys. */
  function Surviving(durable: ByteTable, dirty: ByteTable, kept: set<Bytes>): ByteTable {
    durable + Part(dirty, kept)
  }

  function KeptRecs(d: Disk, kept: set<Bytes>): set<U64> {
    set n | n in d.dirty.recs && RecKey(n) in kept
  }

  function KeptAcks(d: Disk, kept: set<Bytes>): set<U64> {
    set n | n in d.dirty.acks && AckKey(n) in kept
  }

  function LogPart(a: LogTable, kept: set<Bytes>): LogTable {
    LogTable(map n | n in a.recs && RecKey(n) in kept :: a.recs[n], set n | n in a.acks && AckKey(n) in kept)
  }

  /** Losing any of the unflushed keys is a crash of the machine: the store that is left holds the log that is left. */
  lemma CrashOfBytes(durable: ByteTable, dirty: ByteTable, mac: Mac, key: Bytes, d: Disk, kept: set<Bytes>)
    requires Holds(durable, mac, key, d.durable) && Holds(dirty, mac, key, d.dirty)
    ensures Holds(Surviving(durable, dirty, kept), mac, key,
                  AfterCrash(d, KeptRecs(d, kept), KeptAcks(d, kept)).durable)
  {
    hide Holds, Merge, Part;
    HoldsPart(dirty, mac, key, d.dirty, kept);
    HoldsMerge(durable, Part(dirty, kept), mac, key, d.durable, LogPart(d.dirty, kept));
    CrashOfLog(d, kept);
  }

  lemma CrashOfLog(d: Disk, kept: set<Bytes>)
    ensures AfterCrash(d, KeptRecs(d, kept), KeptAcks(d, kept)).durable == Merge(d.durable, LogPart(d.dirty, kept))
  {
    hide RecKey, AckKey;
    var left := AfterCrash(d, KeptRecs(d, kept), KeptAcks(d, kept)).durable;
    var merged := Merge(d.durable, LogPart(d.dirty, kept));
    assert left.recs == merged.recs && left.acks == merged.acks;
  }

  lemma HoldsPart(t: ByteTable, mac: Mac, key: Bytes, a: LogTable, kept: set<Bytes>)
    requires Holds(t, mac, key, a)
    ensures Holds(Part(t, kept), mac, key, LogPart(a, kept))
  {
    hide RecKey, AckKey, TagInput;
  }

  // ---------------------------------------------------------------- main results

  /** A pipeline anywhere in a run of the whole system: the store it works on lists for replay every record whose
      append returned Ok and whose batch did not. */
  lemma PipelineReplays(p: Pipeline, states: seq<State>, events: seq<Event>)
    requires p.Valid() && Run(p.opts, states, events) && BelowLastThroughout(states) && Last(states) == p.m
    ensures var wal := p.wal;
            var list := Unacked(IterFrom(wal.View(), wal.mac, wal.machineKey, 0), wal.View());
            list.Ok? && forall e | e in p.m.accepted :: e in p.m.delivered || e in list.value
  {
    assert |states| > 0;
    hide Run, Holds, UnackedList, Unacked, IterFrom, BelowLastThroughout;
    LogScanned(p.wal, p.m, None);
    AtLeastOnce(p.opts, states, events, |states| - 1);
  }

  /** Cut it off there, losing any of the unflushed keys: the store that is left lists the same records for replay,
      and reopening it resumes at a number that carries neither a record nor an acknowledgement. */
  lemma CrashedPipelineReplays(p: Pipeline, states: seq<State>, events: seq<Event>, kept: set<Bytes>)
    requires p.Valid() && Run(p.opts, states, events) && BelowLastThroughout(states) && Last(states) == p.m
    ensures var wal := p.wal;
            var left := Surviving(wal.durable, wal.dirty, kept);
            var list := Unacked(IterFrom(left, wal.mac, wal.machineKey, 0), left);
            && list.Ok? && (forall e | e in p.m.accepted :: e in p.m.delivered || e in list.value)
            && RecKey(Successor(MaxSeq(left))) !in left && AckKey(Successor(MaxSeq(left))) !in left
  {
    hide Run, Holds, UnackedList, Unacked, IterFrom, BelowLastThroughout, Inv, MaxSeq, RecKey, AckKey;
    var wal := p.wal;
    var left := Surviving(wal.durable, wal.dirty, kept);
    var crash := Crash(KeptRecs(p.m.disk, kept), KeptAcks(p.m.disk, kept));
    var crashed := Step(p.opts, p.m, crash);
    CrashOfBytes(wal.durable, wal.dirty, wal.mac, wal.machineKey, p.m.disk, kept);
    RunOneStep(p.opts, states, events, crash);
    StillBelowLast(states, crashed);
    AtLeastOnce(p.opts, states + [crashed], events + [crash], |states|);
    NothingPending(crashed);
    UnackedExact(left, wal.mac, wal.machineKey, crashed.disk.durable);
    HoldsIsKeyed(left, wal.mac, wal.machineKey, crashed.disk.durable);
    MaxSeqExact(left, crashed.disk.durable);
    ReopenedUnused(p.opts, states + [crashed], events + [crash]);
    HoldsKeys(left, wal.mac, wal.machineKey, crashed.disk.durable, Successor(MaxSeq(left)));
  }

  lemma StillBelowLast(states: seq<State>, s: State)
    requires BelowLastThroughout(states) && s.proc.None?
    ensures BelowLastThroughout(states + [s])
  {}

  lemma NothingPending(s: State)
    requires s.disk.dirty == EMPTY_LOG
    ensures View(s.disk) == s.disk.durable
  {}

  lemma ReopenedUnused(o: Opts, states: seq<State>, events: seq<Event>)
    requires Run(o, states, events) && BelowLastThroughout(states) && Last(states).proc.None?
    ensures var log := View(Last(states).disk); var n := Successor(Greatest(Last(states).disk.durable.recs.Keys));
            n !in log.recs && n !in log.acks
  {
    assert |states| > 0;
    hide Run, Inv;
    RunKeepsInv(o, states, events, |states| - 1);
    OpenKeeps(o, Last(states));
    NextUnused(o, Step(o, Last(states), Open));
  }

  lemma HoldsKeys(t: ByteTable, mac: Mac, key: Bytes, a: LogTable, n: U64)
    requires Holds(t, mac, key, a)
    ensures (RecKey(n) in t <==> n in a.recs) && (AckKey(n) in t <==> n in a.acks)
  {}
}
