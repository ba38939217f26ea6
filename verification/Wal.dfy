/** The write-ahead log over a byte-keyed store, with one integrity tag a record. */
module WriteAheadLog {
  import opened Wrappers
  import opened ByteStrings
  import opened Ordering
  import opened WalKeys

  const MAX_WAL_PAYLOAD_BYTES: nat := 16384

  type I64 = n: int | -0x8000_0000_0000_0000 <= n < 0x8000_0000_0000_0000

  datatype WalKind = Upsert | Delete
  datatype WalRecord = WalRecord(kind: WalKind, docId: U64, payload: Bytes, ts: I64)

  /** A stored value: a parsed envelope, the byte "1" of an acknowledgement, or bytes that do not parse. */
  datatype StoredValue =
    | Envelope(record: WalRecord, tag: Option<Bytes>)
    | AckMark
    | Unreadable

  type ByteTable = map<Bytes, StoredValue>
  type Mac = (Bytes, Bytes) -> Bytes

  datatype WalError = PayloadTooLarge(size: nat) | StoreFailed | BadRecord
  datatype Item = Yield(number: U64, record: WalRecord) | Fail(error: WalError)

  /** How one durable write ends: not inserted, inserted but not flushed, or flushed. */
  datatype Io = InsertFailed | FlushFailed | Synced

  // ---------------------------------------------------------------- tags

  function LittleEndian(n: nat, width: nat): (b: Bytes)
    ensures |b| == width
    decreases width
  {
    if width == 0 then [] else [n % 256] + LittleEndian(n / 256, width - 1)
  }

  function TwosComplement(n: I64): U64 {
    if n < 0 then n + TWO_64 else n
  }

  // The bytes a tag covers; the kind is not among them.
  function TagInput(r: WalRecord): Bytes {
    LittleEndian(r.docId, 8) + LittleEndian(TwosComplement(r.ts), 8) + r.payload
  }

  function Stamp(mac: Mac, key: Bytes, r: WalRecord): StoredValue {
    Envelope(r, Some(mac(key, TagInput(r))))
  }

  predicate Genuine(mac: Mac, key: Bytes, v: StoredValue) {
    v.Envelope? && (v.tag.None? || v.tag.value == mac(key, TagInput(v.record)))
  }

  lemma {:induction false} LittleEndianInjective(m: nat, n: nat, width: nat)
    requires m < Pow256(width) && n < Pow256(width)
    requires LittleEndian(m, width) == LittleEndian(n, width)
    ensures m == n
    decreases width
  {
    if width > 0 {
      var p, q := LittleEndian(m, width), LittleEndian(n, width);
      assert p[0] == q[0] && p[1..] == q[1..];
      LittleEndianInjective(m / 256, n / 256, width - 1);
    }
  }

  function LittleEndianValue(b: Bytes): nat {
    if |b| == 0 then 0 else b[0] + 256 * LittleEndianValue(b[1..])
  }

  lemma {:induction false} LittleEndianReads(n: nat, width: nat)
    requires n < Pow256(width)
    ensures LittleEndianValue(LittleEndian(n, width)) == n
    decreases width
  {
    if width > 0 {
      LittleEndianReads(n / 256, width - 1);
      assert LittleEndian(n, width)[1..] == LittleEndian(n / 256, width - 1);
    }
  }

  /** The layout of the tagged bytes: eight bytes of the document number, eight of the time in two's complement, both
      least significant first, and the payload. */
  lemma TagInputLayout(r: WalRecord)
    ensures var b := TagInput(r);
            && |b| == 16 + |r.payload| && b[16..] == r.payload
            && LittleEndianValue(b[..8]) == r.docId
            && LittleEndianValue(b[8..16]) == (if r.ts < 0 then r.ts + TWO_64 else r.ts)
  {
    var b := TagInput(r);
    assert Pow256(8) == TWO_64;
    LittleEndianReads(r.docId, 8);
    LittleEndianReads(TwosComplement(r.ts), 8);
    assert b[..8] == LittleEndian(r.docId, 8) && b[8..16] == LittleEndian(TwosComplement(r.ts), 8);
  }

  /** The tagged bytes fix document, time and payload, and nothing else: the kind is free. */
  lemma TagInputBinds(a: WalRecord, b: WalRecord)
    ensures TagInput(a) == TagInput(b) <==> a.docId == b.docId && a.ts == b.ts && a.payload == b.payload
  {
    if TagInput(a) == TagInput(b) {
      assert Pow256(8) == TWO_64;
      var p, q := TagInput(a), TagInput(b);
      assert p[..8] == LittleEndian(a.docId, 8) && q[..8] == LittleEndian(b.docId, 8);
      assert p[8..16] == LittleEndian(TwosComplement(a.ts), 8) && q[8..16] == LittleEndian(TwosComplement(b.ts), 8);
      assert p[16..] == a.payload && q[16..] == b.payload;
      LittleEndianInjective(a.docId, b.docId, 8);
      LittleEndianInjective(TwosComplement(a.ts), TwosComplement(b.ts), 8);
    }
  }

  // ---------------------------------------------------------------- reading

  function KeysFrom(t: ByteTable, start: Bytes): (ks: seq<Bytes>)
    ensures Ascending(Less, ks)
    ensures forall k :: k in ks <==> k in t && !Less(k, start)
  {
    LessIsStrictOrder();
    Listing(Less, set k | k in t && !Less(k, start))
  }

  // The closure `iter_from` filters the range scan with.
  function Visit(t: ByteTable, mac: Mac, key: Bytes, k: Bytes): Option<Item>
    requires k in t
  {
    if !StartsWith(k, REC_PREFIX) then None
    else
      match ParseU64(k[4..])
      case None => Some(Fail(BadRecord))
      case Some(n) =>
        if !t[k].Envelope? then Some(Fail(BadRecord))
        else if Genuine(mac, key, t[k]) then Some(Yield(n, t[k].record))
        else None
  }

  function FilterMap(ks: seq<Bytes>, t: ByteTable, mac: Mac, key: Bytes): seq<Item>
    requires forall k | k in ks :: k in t
  {
    if |ks| == 0 then []
    else
      var rest := FilterMap(ks[1..], t, mac, key);
      match Visit(t, mac, key, ks[0])
      case None => rest
      case Some(item) => [item] + rest
  }

  function IterFrom(t: ByteTable, mac: Mac, key: Bytes, start: U64): seq<Item> {
    FilterMap(KeysFrom(t, RecKey(start)), t, mac, key)
  }

  // The greatest record key decides where numbering resumes; an unreadable one counts as zero.
  function MaxSeq(t: ByteTable): U64 {
    var ks := KeysFrom(t, []);
    var recs := RecKeys(ks);
    if |recs| == 0 then 0
    else
      assert recs[|recs| - 1] in recs;
      match ParseU64(recs[|recs| - 1][4..]) case None => 0 case Some(n) => n
  }

  function RecKeys(ks: seq<Bytes>): (r: seq<Bytes>)
    ensures forall k :: k in r <==> k in ks && StartsWith(k, REC_PREFIX)
  {
    if |ks| == 0 then []
    else if StartsWith(ks[0], REC_PREFIX) then [ks[0]] + RecKeys(ks[1..])
    else RecKeys(ks[1..])
  }

  function Successor(n: U64): U64 {
    (n + 1) % TWO_64
  }

  // The records without an acknowledgement, or the first error met.
  function Unacked(items: seq<Item>, t: ByteTable): Result<seq<(U64, WalRecord)>, WalError> {
    if |items| == 0 then Ok([])
    else
      match items[0]
      case Fail(e) => Err(e)
      case Yield(n, r) => Prepend(if AckKey(n) in t then [] else [(n, r)], Unacked(items[1..], t))
  }

  function Prepend<T, E>(out: seq<T>, r: Result<seq<T>, E>): Result<seq<T>, E> {
    if r.Ok? then Ok(out + r.value) else r
  }

  /** The same when a read of the store fails in front of the k-th entry: an error met before it comes first. */
  function Scanned(items: seq<Item>, t: ByteTable, fault: Option<nat>): Result<seq<(U64, WalRecord)>, WalError> {
    if fault.Some? && fault.value <= |items| then
      match Unacked(items[..fault.value], t)
      case Err(e) => Err(e)
      case Ok(_) => Err(StoreFailed)
    else Unacked(items, t)
  }

  /** The replay list fails with the first error of the scan, and only if there is one. */
  lemma {:induction false} UnackedFailsIff(items: seq<Item>, t: ByteTable)
    ensures Unacked(items, t).Err? <==> exists i | 0 <= i < |items| :: items[i].Fail?
    ensures forall i | 0 <= i < |items| && items[i].Fail? && (forall j | 0 <= j < i :: items[j].Yield?) ::
              Unacked(items, t) == Err(items[i].error)
  {
    hide AckKey;
    if |items| > 0 {
      UnackedFailsIff(items[1..], t);
      assert forall i | 1 <= i < |items| :: items[i] == items[1..][i - 1];
    }
  }

  lemma {:induction false} UnackedConcat(a: seq<Item>, b: seq<Item>, t: ByteTable)
    ensures Unacked(a, t).Err? ==> Unacked(a + b, t) == Unacked(a, t)
    ensures Unacked(a, t).Ok? ==> Unacked(a + b, t) == Prepend(Unacked(a, t).value, Unacked(b, t))
  {
    hide AckKey;
    if |a| == 0 {
      assert a + b == b;
      PrependNothing(Unacked(b, t));
    } else {
      assert (a + b)[1..] == a[1..] + b;
      UnackedConcat(a[1..], b, t);
      if a[0].Yield? && Unacked(a[1..], t).Ok? {
        var kept := if AckKey(a[0].number) in t then [] else [(a[0].number, a[0].record)];
        PrependTwice(kept, Unacked(a[1..], t).value, Unacked(b, t));
      }
    }
  }

  // One round of the loop in `unacked`: stop at an error, skip or keep a record.
  lemma UnackedOneMore(items: seq<Item>, t: ByteTable, i: nat)
    requires i < |items| && Unacked(items[..i], t).Ok?
    ensures items[i].Fail? ==> forall k | i < k <= |items| :: Unacked(items[..k], t) == Err(items[i].error)
    ensures items[i].Yield? ==>
              Unacked(items[..i + 1], t) == Ok(Unacked(items[..i], t).value +
                (if AckKey(items[i].number) in t then [] else [(items[i].number, items[i].record)]))
  {
    hide AckKey;
    forall k | i < k <= |items| && items[i].Fail? ensures Unacked(items[..k], t) == Err(items[i].error) {
      assert items[..k] == items[..i] + items[i..k];
      UnackedConcat(items[..i], items[i..k], t);
    }
    assert items[..i + 1] == items[..i] + [items[i]];
    UnackedConcat(items[..i], [items[i]], t);
    if items[i].Yield? {
      var kept := if AckKey(items[i].number) in t then [] else [(items[i].number, items[i].record)];
      assert [items[i]][1..] == [] && kept + [] == kept;
      assert Unacked([items[i]], t) == Ok(kept);
    }
  }

  lemma PrependTwice<T, E>(out: seq<T>, kept: seq<T>, r: Result<seq<T>, E>)
    ensures Prepend(out, Prepend(kept, r)) == Prepend(out + kept, r)
  {
    if r.Ok? {
      assert out + (kept + r.value) == (out + kept) + r.value;
    }
  }

  lemma PrependNothing<T, E>(r: Result<seq<T>, E>)
    ensures Prepend([], r) == r
  {
    if r.Ok? {
      assert [] + r.value == r.value;
    }
  }

  // ---------------------------------------------------------------- untampered logs

  /** A log without its byte encoding: records and acknowledgements by sequence number. */
  datatype LogTable = LogTable(recs: map<U64, WalRecord>, acks: set<U64>)

  /** Every key of the store is well formed, and this log has its numbers. The values are anything. */
  ghost predicate Keyed(t: ByteTable, a: LogTable) {
    && (forall n: U64 :: n in a.recs <==> RecKey(n) in t)
    && (forall n: U64 :: n in a.acks <==> AckKey(n) in t)
    && (forall k | k in t :: exists n: U64 :: k == RecKey(n) || k == AckKey(n))
  }

  /** The store holds exactly this log, every key well formed and every tag made with this key or absent. */
  ghost predicate Holds(t: ByteTable, mac: Mac, key: Bytes, a: LogTable) {
    && Keyed(t, a)
    && (forall n: U64 | n in a.recs :: Genuine(mac, key, t[RecKey(n)]) && t[RecKey(n)].record == a.recs[n])
  }

  lemma HoldsIsKeyed(t: ByteTable, mac: Mac, key: Bytes, a: LogTable)
    requires Holds(t, mac, key, a)
    ensures Keyed(t, a)
  {}

  lemma HoldsRecord(t: ByteTable, mac: Mac, key: Bytes, a: LogTable, n: U64, r: WalRecord)
    requires Holds(t, mac, key, a)
    ensures Holds(t[RecKey(n) := Stamp(mac, key, r)], mac, key, a.(recs := a.recs[n := r]))
  {
    hide RecKey, AckKey, TagInput;
    KeysDistinct();
  }

  lemma HoldsAck(t: ByteTable, mac: Mac, key: Bytes, a: LogTable, n: U64)
    requires Holds(t, mac, key, a)
    ensures Holds(t[AckKey(n) := AckMark], mac, key, a.(acks := a.acks + {n}))
  {
    hide RecKey, AckKey, TagInput;
    KeysDistinct();
  }

  function Merge(a: LogTable, b: LogTable): LogTable {
    LogTable(a.recs + b.recs, a.acks + b.acks)
  }

  lemma HoldsMerge(s: ByteTable, t: ByteTable, mac: Mac, key: Bytes, a: LogTable, b: LogTable)
    requires Holds(s, mac, key, a) && Holds(t, mac, key, b)
    ensures Holds(s + t, mac, key, Merge(a, b))
  {
    hide RecKey, AckKey, TagInput;
  }

  ghost function Numbers(s: set<U64>): (ns: seq<U64>)
    ensures forall i, j | 0 <= i < j < |ns| :: ns[i] < ns[j]
    ensures forall n :: n in ns <==> n in s
  {
    var less := (m: U64, n: U64) => m < n;
    var ns := Listing(less, s);
    assert forall i, j | 0 <= i < j < |ns| :: less(ns[i], ns[j]);
    ns
  }

  ghost function SeqsFrom(a: LogTable, start: U64): set<U64> {
    set n | n in a.recs && start <= n
  }

  ghost function NumbersFrom(a: LogTable, start: U64): seq<U64> {
    Numbers(SeqsFrom(a, start))
  }

  ghost function RecKeysOf(ns: seq<U64>): seq<Bytes> {
    seq(|ns|, i requires 0 <= i < |ns| => RecKey(ns[i]))
  }

  ghost function Yields(ns: seq<U64>, a: LogTable): seq<Item>
    requires forall n | n in ns :: n in a.recs
  {
    if |ns| == 0 then [] else [Yield(ns[0], a.recs[ns[0]])] + Yields(ns[1..], a)
  }

  /** The entries among ns that no acknowledgement covers, in the same order. */
  ghost function Outstanding(ns: seq<U64>, a: LogTable): (out: seq<(U64, WalRecord)>)
    requires forall n | n in ns :: n in a.recs
    ensures forall n, r :: (n, r) in out <==> n in ns && n !in a.acks && a.recs[n] == r
  {
    if |ns| == 0 then []
    else if ns[0] in a.acks then Outstanding(ns[1..], a)
    else [(ns[0], a.recs[ns[0]])] + Outstanding(ns[1..], a)
  }

  lemma RecKeysAscending(ns: seq<U64>)
    requires forall i, j | 0 <= i < j < |ns| :: ns[i] < ns[j]
    ensures Ascending(Less, RecKeysOf(ns))
  {
    forall i, j | 0 <= i < j < |ns| ensures Less(RecKey(ns[i]), RecKey(ns[j])) {
      RecKeyOrder(ns[i], ns[j]);
    }
  }

  lemma ScanIsRecKeys(t: ByteTable, a: LogTable, start: U64)
    requires Keyed(t, a)
    ensures KeysFrom(t, RecKey(start)) == RecKeysOf(NumbersFrom(a, start))
  {
    hide RecKey, AckKey, Less, TagInput;
    var ns := NumbersFrom(a, start);
    var keys := set k | k in t && !Less(k, RecKey(start));
    var scan := RecKeysOf(ns);
    forall k ensures k in scan <==> k in keys {
      if k in keys {
        var n: U64 :| k == RecKey(n) || k == AckKey(n);
        AcksOutsideRecordScan(n, start);
        RecKeyOrder(n, start);
        assert n in ns;
        var i :| 0 <= i < |ns| && ns[i] == n;
        assert scan[i] == k;
      }
      if k in scan {
        var i :| 0 <= i < |scan| && scan[i] == k;
        assert ns[i] in ns;
        RecKeyOrder(ns[i], start);
      }
    }
    RecKeysAscending(ns);
    LessIsStrictOrder();
    ListingUnique(Less, KeysFrom(t, RecKey(start)), scan, keys);
  }

  lemma {:induction false} FilterMapYields(ns: seq<U64>, t: ByteTable, mac: Mac, key: Bytes, a: LogTable)
    requires Holds(t, mac, key, a)
    requires forall n | n in ns :: n in a.recs
    requires forall k | k in RecKeysOf(ns) :: k in t
    ensures FilterMap(RecKeysOf(ns), t, mac, key) == Yields(ns, a)
  {
    hide RecKey, AckKey, TagInput, ParseU64;
    if |ns| > 0 {
      var ks := RecKeysOf(ns);
      assert ks[1..] == RecKeysOf(ns[1..]);
      KeyRoundTrip(ns[0]);
      assert Visit(t, mac, key, ks[0]) == Some(Yield(ns[0], a.recs[ns[0]]));
      FilterMapYields(ns[1..], t, mac, key, a);
    }
  }

  /** On an untampered log the scan yields exactly the records from `start` on, in ascending order. */
  lemma IterFromExact(t: ByteTable, mac: Mac, key: Bytes, a: LogTable, start: U64)
    requires Holds(t, mac, key, a)
    ensures IterFrom(t, mac, key, start) == Yields(NumbersFrom(a, start), a)
  {
    ScanIsRecKeys(t, a, start);
    FilterMapYields(NumbersFrom(a, start), t, mac, key, a);
  }

  lemma {:induction false} UnackedYields(ns: seq<U64>, t: ByteTable, mac: Mac, key: Bytes, a: LogTable)
    requires Holds(t, mac, key, a)
    requires forall n | n in ns :: n in a.recs
    ensures Unacked(Yields(ns, a), t) == Ok(Outstanding(ns, a))
  {
    if |ns| > 0 {
      UnackedYields(ns[1..], t, mac, key, a);
      assert Yields(ns, a)[1..] == Yields(ns[1..], a);
      PrependNothing(Unacked(Yields(ns[1..], a), t));
    }
  }

  ghost function UnackedList(a: LogTable): seq<(U64, WalRecord)> {
    Outstanding(Numbers(a.recs.Keys), a)
  }

  lemma {:induction false} OutstandingAscends(ns: seq<U64>, a: LogTable)
    requires forall n | n in ns :: n in a.recs
    requires forall i, j | 0 <= i < j < |ns| :: ns[i] < ns[j]
    ensures forall i, j | 0 <= i < j < |Outstanding(ns, a)| :: Outstanding(ns, a)[i].0 < Outstanding(ns, a)[j].0
  {
    if |ns| > 0 {
      OutstandingAscends(ns[1..], a);
      var rest := Outstanding(ns[1..], a);
      forall j | 0 <= j < |rest| ensures ns[0] < rest[j].0 {
        assert (rest[j].0, rest[j].1) in rest;
        var k :| 0 <= k < |ns[1..]| && ns[1..][k] == rest[j].0;
        assert ns[k + 1] == rest[j].0;
      }
    }
  }

  lemma NumbersFromZero(a: LogTable)
    ensures NumbersFrom(a, 0) == Numbers(a.recs.Keys)
  {
    assert SeqsFrom(a, 0) == a.recs.Keys;
  }

  /** On an untampered log `unacked` is exactly the accepted records minus the acknowledged ones, ascending. */
  lemma UnackedExact(t: ByteTable, mac: Mac, key: Bytes, a: LogTable)
    requires Holds(t, mac, key, a)
    ensures Unacked(IterFrom(t, mac, key, 0), t) == Ok(UnackedList(a))
    ensures forall n, r :: (n, r) in UnackedList(a) <==> n in a.recs && n !in a.acks && a.recs[n] == r
    ensures forall i, j | 0 <= i < j < |UnackedList(a)| :: UnackedList(a)[i].0 < UnackedList(a)[j].0
  {
    hide Holds, IterFrom, Unacked, Yields, Outstanding, NumbersFrom;
    IterFromExact(t, mac, key, a, 0);
    NumbersFromZero(a);
    UnackedYields(Numbers(a.recs.Keys), t, mac, key, a);
    OutstandingAscends(Numbers(a.recs.Keys), a);
  }

  /** The replay list when a read may fail: on an untampered log that failure is the only error there is. */
  lemma ScannedExact(t: ByteTable, mac: Mac, key: Bytes, a: LogTable, fault: Option<nat>)
    requires Holds(t, mac, key, a)
    ensures Scanned(IterFrom(t, mac, key, 0), t, fault)
         == if fault.Some? && fault.value <= |NumbersFrom(a, 0)| then Err(StoreFailed) else Ok(UnackedList(a))
  {
    hide Holds, IterFrom, Unacked, UnackedList, NumbersFrom, Outstanding;
    var ns := NumbersFrom(a, 0);
    UnackedExact(t, mac, key, a);
    IterFromExact(t, mac, key, a, 0);
    NumbersFromLogged(a, 0);
    YieldsPrefix(ns, a, if fault.Some? then fault.value else 0);
    if fault.Some? && fault.value <= |ns| {
      UnackedYields(ns[..fault.value], t, mac, key, a);
    }
  }

  lemma {:induction false} YieldsPrefix(ns: seq<U64>, a: LogTable, k: nat)
    requires forall n | n in ns :: n in a.recs
    ensures |Yields(ns, a)| == |ns| && (k <= |ns| ==> Yields(ns, a)[..k] == Yields(ns[..k], a))
  {
    if |ns| > 0 && k > 0 {
      YieldsPrefix(ns[1..], a, k - 1);
      assert k <= |ns| ==> ns[..k][1..] == ns[1..][..k - 1];
    } else if |ns| > 0 {
      YieldsPrefix(ns[1..], a, 0);
    }
  }

  lemma NumbersFromLogged(a: LogTable, start: U64)
    ensures forall n | n in NumbersFrom(a, start) :: n in a.recs
  {}

  ghost function Greatest(s: set<U64>): (m: U64)
    ensures forall n | n in s :: n <= m
    ensures if s == {} then m == 0 else m in s
  {
    var ns := Numbers(s);
    if |ns| == 0 then
      assert forall n | n in s :: n in ns;
      0
    else
      assert forall n | n in s :: n in ns;
      assert ns[|ns| - 1] in ns;
      ns[|ns| - 1]
  }

  lemma {:induction false} RecKeysKeepOrder(ks: seq<Bytes>)
    requires Ascending(Less, ks)
    ensures Ascending(Less, RecKeys(ks))
  {
    if |ks| > 0 {
      RecKeysKeepOrder(ks[1..]);
      var rest := RecKeys(ks[1..]);
      forall j | 0 <= j < |rest| ensures Less(ks[0], rest[j]) {
        assert rest[j] in ks[1..];
        var i :| 0 <= i < |ks[1..]| && ks[1..][i] == rest[j];
        assert Less(ks[0], ks[i + 1]);
      }
    }
  }

  lemma AllRecKeys(t: ByteTable, a: LogTable)
    requires Keyed(t, a)
    ensures RecKeys(KeysFrom(t, [])) == RecKeysOf(Numbers(a.recs.Keys))
  {
    hide RecKey, AckKey, TagInput;
    var ns := Numbers(a.recs.Keys);
    var expected := RecKeysOf(ns);
    var keys := set k | k in t && StartsWith(k, REC_PREFIX);
    forall k ensures k in expected <==> k in keys {
      if k in keys {
        var n: U64 :| k == RecKey(n) || k == AckKey(n);
        KeyRoundTrip(n);
        assert n in ns;
        var i :| 0 <= i < |ns| && ns[i] == n;
        assert expected[i] == k;
      }
      if k in expected {
        var i :| 0 <= i < |expected| && expected[i] == k;
        assert ns[i] in ns;
        KeyRoundTrip(ns[i]);
      }
    }
    RecKeysKeepOrder(KeysFrom(t, []));
    RecKeysAscending(ns);
    LessIsStrictOrder();
    ListingUnique(Less, RecKeys(KeysFrom(t, [])), expected, keys);
  }

  /** The scan for the last record key finds the greatest sequence number in use, whatever the values. */
  lemma MaxSeqExact(t: ByteTable, a: LogTable)
    requires Keyed(t, a)
    ensures MaxSeq(t) == Greatest(a.recs.Keys)
  {
    hide RecKey, AckKey, Keyed, KeysFrom, RecKeys, AllDigits;
    var ns := Numbers(a.recs.Keys);
    AllRecKeys(t, a);
    if |ns| > 0 {
      KeyRoundTrip(ns[|ns| - 1]);
    }
  }

  /** A malformed last record key sets the counter back to the start. */
  lemma MalformedLastKeyCountsZero(t: ByteTable, k: Bytes)
    requires k in t && StartsWith(k, REC_PREFIX) && ParseU64(k[4..]).None?
    requires forall l | l in t && StartsWith(l, REC_PREFIX) && l != k :: Less(l, k)
    ensures MaxSeq(t) == 0
  {
    hide ParseU64;
    var recs := RecKeys(KeysFrom(t, []));
    assert !Less(k, []) && k in recs;
    var i :| 0 <= i < |recs| && recs[i] == k;
    RecKeysKeepOrder(KeysFrom(t, []));
    var l := recs[|recs| - 1];
    assert l in recs;
    LessIsStrictOrder();
  }

  // ---------------------------------------------------------------- stores with values of any kind

  // What the scan makes of a stored value: an error, the record, or nothing when a tag is there and does not match.
  function ItemsOf(n: U64, v: StoredValue, mac: Mac, key: Bytes): seq<Item> {
    match v
    case Envelope(r, None) => [Yield(n, r)]
    case Envelope(r, Some(tag)) => if tag == mac(key, TagInput(r)) then [Yield(n, r)] else []
    case AckMark => [Fail(BadRecord)]
    case Unreadable => [Fail(BadRecord)]
  }

  ghost function Listed(ns: seq<U64>, t: ByteTable, mac: Mac, key: Bytes): seq<Item>
    requires forall n | n in ns :: RecKey(n) in t
  {
    if |ns| == 0 then [] else ItemsOf(ns[0], t[RecKey(ns[0])], mac, key) + Listed(ns[1..], t, mac, key)
  }

  lemma {:induction false} FilterMapLists(ns: seq<U64>, t: ByteTable, mac: Mac, key: Bytes)
    requires forall n | n in ns :: RecKey(n) in t
    requires forall k | k in RecKeysOf(ns) :: k in t
    ensures FilterMap(RecKeysOf(ns), t, mac, key) == Listed(ns, t, mac, key)
  {
    hide RecKey, AckKey, TagInput, ParseU64;
    if |ns| > 0 {
      var ks := RecKeysOf(ns);
      assert ks[1..] == RecKeysOf(ns[1..]);
      KeyRoundTrip(ns[0]);
      FilterMapLists(ns[1..], t, mac, key);
    }
  }

  /** On any store with well-formed keys the scan goes through the records from `start` on, in ascending order: it
      yields those without a tag or with the matching one, leaves out the others, and reports unreadable values. */
  lemma IterFromAny(t: ByteTable, mac: Mac, key: Bytes, a: LogTable, start: U64)
    requires Keyed(t, a)
    ensures forall n | n in NumbersFrom(a, start) :: RecKey(n) in t
    ensures IterFrom(t, mac, key, start) == Listed(NumbersFrom(a, start), t, mac, key)
  {
    hide RecKey, AckKey, TagInput, ParseU64, KeysFrom;
    ScanIsRecKeys(t, a, start);
    FilterMapLists(NumbersFrom(a, start), t, mac, key);
  }

  predicate Sound(mac: Mac, key: Bytes, v: StoredValue) {
    v.Envelope? && (v.tag == None || v.tag == Some(mac(key, TagInput(v.record))))
  }

  // The sound records among ns that no acknowledgement covers.
  ghost function SoundOutstanding(ns: seq<U64>, t: ByteTable, mac: Mac, key: Bytes): (out: seq<(U64, WalRecord)>)
    requires forall n | n in ns :: RecKey(n) in t && t[RecKey(n)].Envelope?
    ensures forall n, r :: (n, r) in out <==>
              n in ns && Sound(mac, key, t[RecKey(n)]) && t[RecKey(n)].record == r && AckKey(n) !in t
  {
    if |ns| == 0 then []
    else
      var n, rest := ns[0], SoundOutstanding(ns[1..], t, mac, key);
      var v := t[RecKey(n)];
      if Sound(mac, key, v) && AckKey(n) !in t then [(n, v.record)] + rest else rest
  }

  lemma {:induction false} UnackedListed(ns: seq<U64>, t: ByteTable, mac: Mac, key: Bytes)
    requires forall n | n in ns :: RecKey(n) in t
    ensures (exists n | n in ns :: !t[RecKey(n)].Envelope?) ==> Unacked(Listed(ns, t, mac, key), t) == Err(BadRecord)
    ensures (forall n | n in ns :: t[RecKey(n)].Envelope?) ==>
              Unacked(Listed(ns, t, mac, key), t) == Ok(SoundOutstanding(ns, t, mac, key))
  {
    hide RecKey, AckKey, TagInput;
    if |ns| > 0 {
      UnackedListed(ns[1..], t, mac, key);
      var items, rest := ItemsOf(ns[0], t[RecKey(ns[0])], mac, key), Listed(ns[1..], t, mac, key);
      assert Listed(ns, t, mac, key) == items + rest;
      if |items| == 0 {
        assert items + rest == rest;
      } else {
        assert (items + rest)[1..] == rest;
        PrependNothing(Unacked(rest, t));
      }
      assert ns == [ns[0]] + ns[1..];
    }
  }

  lemma {:induction false} SoundAscends(ns: seq<U64>, t: ByteTable, mac: Mac, key: Bytes)
    requires forall n | n in ns :: RecKey(n) in t && t[RecKey(n)].Envelope?
    requires forall i, j | 0 <= i < j < |ns| :: ns[i] < ns[j]
    ensures forall i, j | 0 <= i < j < |SoundOutstanding(ns, t, mac, key)| ::
              SoundOutstanding(ns, t, mac, key)[i].0 < SoundOutstanding(ns, t, mac, key)[j].0
  {
    hide RecKey, AckKey, TagInput, Sound;
    if |ns| > 0 {
      SoundAscends(ns[1..], t, mac, key);
      var rest := SoundOutstanding(ns[1..], t, mac, key);
      forall j | 0 <= j < |rest| ensures ns[0] < rest[j].0 {
        assert (rest[j].0, rest[j].1) in rest;
        var k :| 0 <= k < |ns[1..]| && ns[1..][k] == rest[j].0;
        assert ns[k + 1] == rest[j].0;
      }
    }
  }

  /** On any store with well-formed keys and readable values `unacked` lists, ascending, precisely the records that
      carry no tag or the matching one and no acknowledgement: a tampered record is left out and hides no other. A
      value that is not an envelope makes it fail. */
  lemma UnackedAny(t: ByteTable, mac: Mac, key: Bytes, a: LogTable)
    requires Keyed(t, a)
    ensures var r := Unacked(IterFrom(t, mac, key, 0), t);
            && (r.Err? <==> exists n | n in a.recs :: !t[RecKey(n)].Envelope?) && (r.Err? ==> r.error == BadRecord)
            && (r.Ok? ==>
                  && (forall n, w :: (n, w) in r.value <==>
                        && n in a.recs && n !in a.acks
                        && (t[RecKey(n)] == Envelope(w, None)
                            || t[RecKey(n)] == Envelope(w, Some(mac(key, TagInput(w))))))
                  && forall i, j | 0 <= i < j < |r.value| :: r.value[i].0 < r.value[j].0)
  {
    hide RecKey, AckKey, TagInput, Unacked, IterFrom, Listed, Keyed, Numbers, SoundOutstanding;
    IterFromAny(t, mac, key, a, 0);
    NumbersFromZero(a);
    KeyedBy(t, a);
    UnackedListed(Numbers(a.recs.Keys), t, mac, key);
    if forall n | n in a.recs :: t[RecKey(n)].Envelope? {
      SoundAscends(Numbers(a.recs.Keys), t, mac, key);
    }
  }

  lemma KeyedBy(t: ByteTable, a: LogTable)
    requires Keyed(t, a)
    ensures forall n :: n in a.recs <==> RecKey(n) in t
    ensures forall n :: n in a.acks <==> AckKey(n) in t
    ensures forall n :: n in Numbers(a.recs.Keys) <==> n in a.recs
  {}

  /** Whatever the store, its keys and values: every record the scan yields stands in an envelope of it without a tag or
      with the tag that the key gives for that very record. */
  lemma YieldsAreSound(t: ByteTable, mac: Mac, key: Bytes, start: U64, i: nat)
    requires i < |IterFrom(t, mac, key, start)| && IterFrom(t, mac, key, start)[i].Yield?
    ensures var r := IterFrom(t, mac, key, start)[i].record;
            exists k :: k in t && (t[k] == Envelope(r, None) || t[k] == Envelope(r, Some(mac(key, TagInput(r)))))
  {
    FilterMapSound(KeysFrom(t, RecKey(start)), t, mac, key, i);
  }

  lemma {:induction false} FilterMapSound(ks: seq<Bytes>, t: ByteTable, mac: Mac, key: Bytes, i: nat)
    requires forall k | k in ks :: k in t
    requires i < |FilterMap(ks, t, mac, key)| && FilterMap(ks, t, mac, key)[i].Yield?
    ensures var r := FilterMap(ks, t, mac, key)[i].record;
            exists k :: k in t && (t[k] == Envelope(r, None) || t[k] == Envelope(r, Some(mac(key, TagInput(r)))))
  {
    hide TagInput, ParseU64;
    var v := Visit(t, mac, key, ks[0]);
    if v.None? || i > 0 {
      FilterMapSound(ks[1..], t, mac, key, if v.None? then i else i - 1);
    } else {
      assert ks[0] in t && t[ks[0]] == Envelope(v.value.record, t[ks[0]].tag);
    }
  }

  // ---------------------------------------------------------------- the log object

  class Wal {
    const mac: Mac
    const machineKey: Bytes
    var durable: ByteTable  // what a crash cannot take back
    var dirty: ByteTable    // writes since the last successful flush
    var nextSeq: U64

    function View(): ByteTable
      reads this
    {
      durable + dirty
    }

    /** Open a store under an explicit key; numbering resumes after the greatest record key. */
    constructor OpenWithKey(stored: ByteTable, key: Bytes, mac: Mac)
      ensures this.mac == mac && machineKey == key
      ensures durable == stored && dirty == map[]
      ensures nextSeq == Successor(MaxSeq(stored))
    {
      this.mac := mac;
      machineKey := key;
      durable := stored;
      dirty := map[];
      nextSeq := Successor(MaxSeq(stored));
    }

    // One `db.insert` followed by one `db.flush`.
    method Write(k: Bytes, v: StoredValue, io: Io)
      modifies this
      ensures nextSeq == old(nextSeq)
      ensures io.InsertFailed? ==> durable == old(durable) && dirty == old(dirty)
      ensures io.FlushFailed? ==> durable == old(durable) && dirty == old(dirty)[k := v]
      ensures io.Synced? ==> durable == old(View())[k := v] && dirty == map[]
    {
      if io.InsertFailed? {
        return;
      }
      dirty := dirty[k := v];
      if io.Synced? {
        durable, dirty := durable + dirty, map[];
      }
    }

    /** An oversized payload changes nothing; otherwise a sequence number is spent even when the write fails. */
    method Append(record: WalRecord, io: Io) returns (r: Result<U64, WalError>)
      modifies this
      ensures |record.payload| > MAX_WAL_PAYLOAD_BYTES ==>
                r == Err(PayloadTooLarge(|record.payload|)) && unchanged(this)
      ensures |record.payload| <= MAX_WAL_PAYLOAD_BYTES ==>
                && nextSeq == (if old(nextSeq) == TWO_64 - 1 then 0 else old(nextSeq) + 1)
                && r == (if io.Synced? then Ok(old(nextSeq)) else Err(StoreFailed))
                && var k, v := RecKey(old(nextSeq)), Envelope(record, Some(mac(machineKey, TagInput(record))));
                && (io.InsertFailed? ==> durable == old(durable) && dirty == old(dirty))
                && (io.FlushFailed? ==> durable == old(durable) && dirty == old(dirty)[k := v])
                && (io.Synced? ==> durable == old(View())[k := v] && dirty == map[])
    {
      hide TagInput, RecKey;
      if |record.payload| > MAX_WAL_PAYLOAD_BYTES {
        return Err(PayloadTooLarge(|record.payload|));
      }
      var envelope := Stamp(mac, machineKey, record);
      var n := nextSeq;
      nextSeq := Successor(nextSeq);
      Write(RecKey(n), envelope, io);
      r := if io.Synced? then Ok(n) else Err(StoreFailed);
    }

    method Ack(n: U64, io: Io) returns (r: Result<(), WalError>)
      modifies this
      ensures nextSeq == old(nextSeq)
      ensures r == if io.Synced? then Ok(()) else Err(StoreFailed)
      ensures io.InsertFailed? ==> durable == old(durable) && dirty == old(dirty)
      ensures io.FlushFailed? ==> durable == old(durable) && dirty == old(dirty)[AckKey(n) := AckMark]
      ensures io.Synced? ==> durable == old(View())[AckKey(n) := AckMark] && dirty == map[]
    {
      Write(AckKey(n), AckMark, io);
      r := if io.Synced? then Ok(()) else Err(StoreFailed);
    }

    /** The records still to be delivered, in scan order, or the first error: of a record, or of a read of the store
        in front of the entry that `fault` names. */
    method UnackedRecords(fault: Option<nat>) returns (r: Result<seq<(U64, WalRecord)>, WalError>)
      ensures r == Scanned(IterFrom(View(), mac, machineKey, 0), View(), fault)
      ensures fault == None ==> r == Unacked(IterFrom(View(), mac, machineKey, 0), View())
    {
      hide IterFrom, Unacked, AckKey;
      var t := View();
      var items := IterFrom(t, mac, machineKey, 0);
      var out: seq<(U64, WalRecord)> := [];
      var i := 0;
      NothingUnacked(items, t);
      while i < |items|
        invariant 0 <= i <= |items| && Unacked(items[..i], t) == Ok(out)
        invariant fault.Some? ==> i <= fault.value
      {
        if fault == Some(i) {
          return Err(StoreFailed);
        }
        UnackedOneMore(items, t, i);
        if items[i].Fail? {
          assert items[..|items|] == items;
          return Err(items[i].error);
        }
        if AckKey(items[i].number) !in t {
          out := out + [(items[i].number, items[i].record)];
        } else {
          assert out + [] == out;
        }
        i := i + 1;
      }
      assert items[..i] == items;
      r := if fault == Some(i) then Err(StoreFailed) else Ok(out);
    }
  }

  lemma NothingUnacked(items: seq<Item>, t: ByteTable)
    ensures Unacked(items[..0], t) == Ok([])
  {}
}
