/** The two-level result cache: an in-memory layer that may drop entries at any time over an on-disk layer. */
module RecallCache {
  import opened Wrappers
  import opened ByteStrings
  import opened RankFusion

  type Hits = seq<RecallHit>
  type Query = (Bytes, U64)

  const COLON: Byte := 58

  /** The hash, cut to 64 bits, and the JSON form of a result list. */
  datatype Env = Env(hash: Bytes -> U64, encode: Hits -> Bytes, decode: Bytes -> Option<Hits>)

  // What is written is read back.
  predicate RoundTrips(env: Env, hits: Hits) {
    env.decode(env.encode(hits)) == Some(hits)
  }

  // ---------------------------------------------------------------- the key

  function Decimal(n: nat): (d: Bytes)
    ensures |d| > 0
  {
    if n < 10 then [48 + n] else Decimal(n / 10) + [48 + n % 10]
  }

  /** The query, a colon and the result count in decimal. */
  function KeyText(p: Query): Bytes {
    p.0 + [COLON] + Decimal(p.1)
  }

  function Key(env: Env, p: Query): U64 {
    env.hash(KeyText(p))
  }

  lemma {:induction false} DecimalInjective(m: nat, n: nat)
    requires Decimal(m) == Decimal(n)
    ensures m == n
  {
    var d := Decimal(m);
    var front, last := d[..|d| - 1], d[|d| - 1];
    assert m >= 10 ==> front == Decimal(m / 10);
    assert n >= 10 ==> front == Decimal(n / 10);
    if m >= 10 && n >= 10 {
      DecimalInjective(m / 10, n / 10);
    }
  }

  lemma {:induction false} DecimalHasNoColon(n: nat)
    ensures COLON !in Decimal(n)
  {
    if n >= 10 { DecimalHasNoColon(n / 10); }
  }

  lemma LastColon(a: Bytes, b: Bytes, c: Bytes, d: Bytes)
    requires a + [COLON] + b == c + [COLON] + d && COLON !in b && COLON !in d
    ensures |a| == |c|
  {
    var s := a + [COLON] + b;
    assert s[|a|] == COLON && s[|c|] == COLON;
    assert forall i :: |a| < i < |s| ==> s[i] == b[i - |a| - 1];
    assert forall i :: |c| < i < |s| ==> s[i] == d[i - |c| - 1];
  }

  /** Different queries have different key texts, also when a query itself ends in a colon and digits. */
  lemma KeyTextInjective(p: Query, q: Query)
    requires KeyText(p) == KeyText(q)
    ensures p == q
  {
    DecimalHasNoColon(p.1);
    DecimalHasNoColon(q.1);
    LastColon(p.0, Decimal(p.1), q.0, Decimal(q.1));
    var s := KeyText(p);
    assert s[..|p.0|] == p.0 && s[..|q.0|] == q.0;
    assert s[|p.0| + 1..] == Decimal(p.1) && s[|q.0| + 1..] == Decimal(q.1);
    DecimalInjective(p.1, q.1);
  }

  // The number that decimal digits stand for.
  function NumberOf(digits: Bytes): int {
    if digits == [] then 0 else NumberOf(digits[..|digits| - 1]) * 10 + digits[|digits| - 1] as int - '0' as int
  }

  predicate OnlyDigits(d: Bytes) {
    forall i :: 0 <= i < |d| ==> '0' as int <= d[i] as int <= '9' as int
  }

  lemma {:induction false} DecimalReads(n: nat)
    ensures var d := Decimal(n);
            NumberOf(d) == n && OnlyDigits(d) && (n > 0 ==> d[0] as int != '0' as int)
  {
    if n >= 10 {
      DecimalReads(n / 10);
    }
  }

  /** A key text is the query, a colon, and the count in digits, without a leading zero unless it is 0. */
  lemma KeyTextReads(p: Query)
    ensures var (text, n) := (KeyText(p), |p.0|);
            && |text| >= n + 2 && text[..n] == p.0 && text[n] as int == ':' as int
            && NumberOf(text[n + 1..]) == p.1
            && OnlyDigits(text[n + 1..])
            && (text[n + 1] as int == '0' as int ==> |text| == n + 2)
  {
    DecimalReads(p.1);
    assert KeyText(p)[|p.0| + 1..] == Decimal(p.1);
  }

  // No two of the texts in use have the same cut hash.
  ghost predicate CollisionFree(env: Env, used: set<Query>) {
    forall p, q :: p in used && q in used && Key(env, p) == Key(env, q) ==> KeyText(p) == KeyText(q)
  }

  lemma KeysTellApart(env: Env, used: set<Query>, p: Query, q: Query)
    requires CollisionFree(env, used) && p in used && q in used
    ensures Key(env, p) == Key(env, q) <==> p == q
  {
    if Key(env, p) == Key(env, q) { KeyTextInjective(p, q); }
  }

  // ---------------------------------------------------------------- operations on values

  datatype State = State(l1: map<U64, Hits>, l2: map<U64, Bytes>)

  /** How clearing the disk layer goes: completely, and then flushed or not, or given up part-way. */
  datatype Clearing = Cleared(flushed: bool) | GaveUp(removed: set<U64>)

  /** Operations with the outcome of their disk accesses; Evict stands for every loss of memory entries,
      by size, by age or by a restart. */
  datatype Event =
    | Put(p: Query, hits: Hits, stored: bool)
    | Get(p: Query, readOk: bool)
    | Evict(keys: set<U64>)
    | InvalidateAll(clearing: Clearing)
    | InvalidateL1

  function ReadL2(env: Env, s: State, key: U64): Option<Hits> {
    if key in s.l2 then env.decode(s.l2[key]) else None
  }

  function Answer(env: Env, s: State, p: Query, readOk: bool): Option<Hits> {
    var key := Key(env, p);
    if key in s.l1 then Some(s.l1[key])
    else if readOk then ReadL2(env, s, key)
    else None
  }

  function Step(env: Env, s: State, e: Event): State {
    match e
    case Put(p, hits, stored) =>
      State(s.l1[Key(env, p) := hits], if stored then s.l2[Key(env, p) := env.encode(hits)] else s.l2)
    case Get(p, readOk) =>
      var a := Answer(env, s, p, readOk);
      if a.Some? then s.(l1 := s.l1[Key(env, p) := a.value]) else s
    case Evict(keys) => s.(l1 := s.l1 - keys)
    case InvalidateAll(clearing) =>
      State(map[], if clearing.Cleared? then map[] else s.l2 - clearing.removed)
    case InvalidateL1 => s.(l1 := map[])
  }

  function Run(env: Env, s: State, es: seq<Event>): State {
    if es == [] then s else Step(env, Run(env, s, es[..|es| - 1]), es[|es| - 1])
  }

  const EMPTY := State(map[], map[])

  // ---------------------------------------------------------------- the class

  class TwoLevelCache {
    const env: Env
    var l1: map<U64, Hits>
    var l2: map<U64, Bytes>

    ghost function Value(): State
      reads this
    {
      State(l1, l2)
    }

    // A cache over the disk layer that an earlier process left.
    constructor (env: Env, disk: map<U64, Bytes>)
      ensures this.env == env && Value() == State(map[], disk)
    {
      this.env := env;
      l1, l2 := map[], disk;
    }

    method GetHits(p: Query, readOk: bool) returns (r: Option<Hits>)
      modifies this
      ensures r == Answer(env, old(Value()), p, readOk)
      ensures Value() == Step(env, old(Value()), Get(p, readOk))
      ensures r.Some? ==> l1 == old(l1)[Key(env, p) := r.value]
      ensures r.None? ==> l1 == old(l1)
      ensures l2 == old(l2)
    {
      var key := Key(env, p);
      if key in l1 {
        assert l1[key := l1[key]] == l1;
        return Some(l1[key]);
      }
      if !readOk || key !in l2 {
        return None;
      }
      r := env.decode(l2[key]);
      if r.Some? {
        l1 := l1[key := r.value];
      }
    }

    method PutHits(p: Query, hits: Hits, stored: bool)
      modifies this
      ensures Value() == Step(env, old(Value()), Put(p, hits, stored))
      ensures Answer(env, Value(), p, false) == Some(hits)
    {
      var key := Key(env, p);
      l1 := l1[key := hits];
      if stored {
        l2 := l2[key := env.encode(hits)];
      }
    }

    method InvalidateBoth(clearing: Clearing) returns (ok: bool)
      modifies this
      ensures Value() == Step(env, old(Value()), InvalidateAll(clearing))
      ensures ok <==> clearing == Cleared(true)
      ensures l1 == map[] && (ok ==> l2 == map[])
    {
      l1 := map[];
      match clearing
      case GaveUp(removed) =>
        l2 := l2 - removed;
        return false;
      case Cleared(flushed) =>
        l2 := map[];
        return flushed;
    }

    method InvalidateL1All()
      modifies this
      ensures Value() == Step(env, old(Value()), InvalidateL1)
      ensures l1 == map[] && l2 == old(l2)
    {
      l1 := map[];
    }
  }

  // ---------------------------------------------------------------- a plain map

  function PlainStep(m: map<Query, Hits>, e: Event): map<Query, Hits> {
    match e
    case Put(p, hits, _) => m[p := hits]
    case InvalidateAll(_) => map[]
    case _ => m
  }

  /** The last value put for each query since the last invalidation of everything. */
  function Plain(es: seq<Event>): map<Query, Hits> {
    if es == [] then map[] else PlainStep(Plain(es[..|es| - 1]), es[|es| - 1])
  }

  function Lookup(m: map<Query, Hits>, p: Query): Option<Hits> {
    if p in m then Some(m[p]) else None
  }

  predicate Names(e: Event, used: set<Query>) {
    match e
    case Put(p, _, _) => p in used
    case Get(p, _) => p in used
    case _ => true
  }

  predicate Works(env: Env, e: Event) {
    match e
    case Put(_, hits, stored) => stored && RoundTrips(env, hits)
    case Get(_, readOk) => readOk
    case InvalidateAll(clearing) => clearing.Cleared?
    case _ => true
  }

  // What memory holds, disk holds as well.
  ghost predicate Mirrored(env: Env, s: State) {
    forall key :: key in s.l1 ==> ReadL2(env, s, key) == Some(s.l1[key])
  }

  // Disk holds the plain map.
  ghost predicate Represents(env: Env, used: set<Query>, s: State, m: map<Query, Hits>) {
    forall p :: p in used ==> ReadL2(env, s, Key(env, p)) == Lookup(m, p)
  }

  lemma StepRepresents(env: Env, used: set<Query>, s: State, m: map<Query, Hits>, e: Event)
    requires CollisionFree(env, used) && Names(e, used) && Works(env, e)
    requires Mirrored(env, s) && Represents(env, used, s, m)
    ensures Mirrored(env, Step(env, s, e)) && Represents(env, used, Step(env, s, e), PlainStep(m, e))
  {
    hide Key, KeyText;
    if e.Put? {
      forall q | q in used ensures Key(env, e.p) == Key(env, q) <==> e.p == q {
        KeysTellApart(env, used, e.p, q);
      }
    }
  }

  lemma {:induction false} RunRepresents(env: Env, used: set<Query>, es: seq<Event>)
    requires CollisionFree(env, used)
    requires forall i :: 0 <= i < |es| ==> Names(es[i], used) && Works(env, es[i])
    ensures Mirrored(env, Run(env, EMPTY, es)) && Represents(env, used, Run(env, EMPTY, es), Plain(es))
  {
    if es != [] {
      var n := |es| - 1;
      RunRepresents(env, used, es[..n]);
      StepRepresents(env, used, Run(env, EMPTY, es[..n]), Plain(es[..n]), es[n]);
    }
  }

  /** While the disk works, the cache answers like a map from (query, count) to the last value put, whatever
      memory loses on the way. */
  lemma AnswersLikePlainMap(env: Env, used: set<Query>, es: seq<Event>, p: Query)
    requires CollisionFree(env, used) && p in used
    requires forall i :: 0 <= i < |es| ==> Names(es[i], used) && Works(env, es[i])
    ensures Answer(env, Run(env, EMPTY, es), p, true) == Lookup(Plain(es), p)
  {
    RunRepresents(env, used, es);
  }

  /** Losing memory entries, by age too, never shows in an answer: the disk layer has no age limit. */
  lemma ExpiryIsInvisible(env: Env, used: set<Query>, es: seq<Event>, keys: set<U64>, p: Query)
    requires CollisionFree(env, used) && p in used
    requires forall i :: 0 <= i < |es| ==> Names(es[i], used) && Works(env, es[i])
    ensures var s := Run(env, EMPTY, es);
            Answer(env, Step(env, s, Evict(keys)), p, true) == Answer(env, s, p, true)
  {
    RunRepresents(env, used, es);
  }

  // ---------------------------------------------------------------- failing disk accesses

  // Values put since the layers were last emptied.
  function Candidates(es: seq<Event>): set<(Query, Hits)> {
    if es == [] then {}
    else
      var c := Candidates(es[..|es| - 1]);
      match es[|es| - 1]
      case Put(p, hits, _) => c + {(p, hits)}
      case InvalidateAll(clearing) => if clearing.Cleared? then {} else c
      case _ => c
  }

  // A value itself, or what its JSON form reads back as.
  predicate Shows(env: Env, put: Hits, shown: Hits) {
    shown == put || env.decode(env.encode(put)) == Some(shown)
  }

  ghost predicate FromCandidates(env: Env, s: State, c: set<(Query, Hits)>) {
    && (forall key :: key in s.l1 ==> exists x :: x in c && Key(env, x.0) == key && Shows(env, x.1, s.l1[key]))
    && (forall key :: key in s.l2 ==> exists x :: x in c && Key(env, x.0) == key && s.l2[key] == env.encode(x.1))
  }

  lemma StepFromCandidates(env: Env, s: State, c: set<(Query, Hits)>, e: Event)
    requires FromCandidates(env, s, c)
    ensures FromCandidates(env, Step(env, s, e),
                           if e.Put? then c + {(e.p, e.hits)}
                           else if e.InvalidateAll? && e.clearing.Cleared? then {} else c)
  {
    hide Key;
    match e
    case Put(p, hits, stored) =>
      var d := c + {(p, hits)};
      assert (p, hits) in d && (p, hits).0 == p && (p, hits).1 == hits;
    case Get(p, readOk) =>
      var key := Key(env, p);
      var a := Answer(env, s, p, readOk);
      if a.Some? && key !in s.l1 {
        var x :| x in c && Key(env, x.0) == key && s.l2[key] == env.encode(x.1);
        assert Shows(env, x.1, a.value);
      }
    case _ =>
  }

  lemma {:induction false} RunFromCandidates(env: Env, es: seq<Event>)
    ensures FromCandidates(env, Run(env, EMPTY, es), Candidates(es))
  {
    if es != [] {
      var n := |es| - 1;
      RunFromCandidates(env, es[..n]);
      StepFromCandidates(env, Run(env, EMPTY, es[..n]), Candidates(es[..n]), es[n]);
    }
  }

  /** Whatever disk accesses fail: an answer is a value put for that very query and count since both layers
      were last emptied. In particular nothing is answered right after an emptying. */
  lemma AnswersComeFromPuts(env: Env, used: set<Query>, es: seq<Event>, p: Query, readOk: bool)
    requires CollisionFree(env, used) && p in used
    requires forall i :: 0 <= i < |es| ==> Names(es[i], used)
    ensures var a := Answer(env, Run(env, EMPTY, es), p, readOk);
            a.Some? ==> exists v :: (p, v) in Candidates(es) && Shows(env, v, a.value)
  {
    hide Key, Shows;
    RunFromCandidates(env, es);
    CandidatesAreUsed(es, used);
    var s, key := Run(env, EMPTY, es), Key(env, p);
    if key in s.l1 {
      var x :| x in Candidates(es) && Key(env, x.0) == key && Shows(env, x.1, s.l1[key]);
      KeysTellApart(env, used, x.0, p);
      assert (p, x.1) == x;
    } else if readOk && ReadL2(env, s, key).Some? {
      var x :| x in Candidates(es) && Key(env, x.0) == key && s.l2[key] == env.encode(x.1);
      KeysTellApart(env, used, x.0, p);
      assert (p, x.1) == x;
      assert Shows(env, x.1, ReadL2(env, s, key).value) by { ReadBackShows(env, x.1); }
    }
  }

  lemma ReadBackShows(env: Env, put: Hits)
    ensures env.decode(env.encode(put)).Some? ==> Shows(env, put, env.decode(env.encode(put)).value)
  {}

  lemma {:induction false} CandidatesAreUsed(es: seq<Event>, used: set<Query>)
    requires forall i :: 0 <= i < |es| ==> Names(es[i], used)
    ensures forall x :: x in Candidates(es) ==> x.0 in used
  {
    if es != [] {
      assert Names(es[|es| - 1], used);
      CandidatesAreUsed(es[..|es| - 1], used);
    }
  }

  /** A put whose disk write failed is answered while memory keeps it. Once memory drops it, the answer is
      the new value exactly when disk already showed that value: an older value comes back otherwise. */
  lemma FailedPutIsForgotten(env: Env, s: State, p: Query, hits: Hits, keys: set<U64>, stored: bool)
    requires Key(env, p) in keys
    ensures var t := Step(env, s, Put(p, hits, stored));
            && Answer(env, t, p, true) == Some(hits)
            && (Answer(env, Step(env, t, Evict(keys)), p, true) == Some(hits)
                <==> if stored then RoundTrips(env, hits) else ReadL2(env, s, Key(env, p)) == Some(hits))
            && (!stored ==> Answer(env, Step(env, t, Evict(keys)), p, true) == ReadL2(env, s, Key(env, p)))
  {}

  /** An invalidation that gave up part-way has emptied memory only: every entry it did not remove from disk
      is still answered. */
  lemma FailedInvalidationStillAnswers(env: Env, s: State, p: Query, removed: set<U64>)
    ensures Answer(env, Step(env, s, InvalidateAll(GaveUp(removed))), p, true)
         == if Key(env, p) in removed then None else ReadL2(env, s, Key(env, p))
  {}

  // ---------------------------------------------------------------- overlapping calls

  // The second half of a lookup that missed memory: what it read from disk goes to memory.
  function Promote(env: Env, s: State, p: Query, read: Hits): State {
    s.(l1 := s.l1[Key(env, p) := read])
  }

  // The last of these calls that set or removed the entry of p, if any did, set it to this value.
  predicate Settled(during: seq<Event>, p: Query, read: Hits) {
    if |during| == 0 then true
    else
      match during[|during| - 1]
      case Put(q, hits, _) => if q == p then hits == read else Settled(during[..|during| - 1], p, read)
      case InvalidateAll(_) => false
      case _ => Settled(during[..|during| - 1], p, read)
  }

  lemma {:induction false} PlainIffSettled(before: seq<Event>, during: seq<Event>, p: Query)
    requires p in Plain(before)
    ensures Lookup(Plain(before + during), p) == Some(Plain(before)[p]) <==> Settled(during, p, Plain(before)[p])
  {
    if |during| == 0 {
      assert before + during == before;
    } else {
      assert (before + during)[..|before + during| - 1] == before + during[..|during| - 1];
      PlainIffSettled(before, during[..|during| - 1], p);
    }
  }

  /** A lookup that reads disk, lets other calls run and then promotes what it read. Right after that the cache answers
      like the plain map, for every query in use, if and only if the last of those calls that set or removed the entry
      put the value read; and only the looked-up entry can be wrong. */
  lemma LatePromotion(env: Env, used: set<Query>, before: seq<Event>, during: seq<Event>, p: Query)
    requires CollisionFree(env, used) && p in used
    requires forall i :: 0 <= i < |before + during| ==>
               Names((before + during)[i], used) && Works(env, (before + during)[i])
    requires p in Plain(before) && Key(env, p) !in Run(env, EMPTY, before).l1
    ensures ReadL2(env, Run(env, EMPTY, before), Key(env, p)) == Some(Plain(before)[p])
    ensures var late := Promote(env, Run(env, EMPTY, before + during), p, Plain(before)[p]);
            && ((forall q :: q in used ==> Answer(env, late, q, true) == Lookup(Plain(before + during), q))
                <==> Settled(during, p, Plain(before)[p]))
            && (forall q :: q in used && q != p ==> Answer(env, late, q, true) == Lookup(Plain(before + during), q))
  {
    assert forall i :: 0 <= i < |before| ==> (before + during)[i] == before[i];
    RunRepresents(env, used, before);
    RunRepresents(env, used, before + during);
    PlainIffSettled(before, during, p);
    forall q | q in used ensures Key(env, p) == Key(env, q) <==> p == q {
      KeysTellApart(env, used, p, q);
    }
    hide Key, Plain, Run, Settled;
    var s := Run(env, EMPTY, before + during);
    var late := Promote(env, s, p, Plain(before)[p]);
    assert Answer(env, late, p, true) == Some(Plain(before)[p]);
    forall q | q in used && q != p ensures Answer(env, late, q, true) == Lookup(Plain(before + during), q) {
      assert Answer(env, late, q, true) == Answer(env, s, q, true);
    }
  }

  /** So a lookup that overlaps an invalidation can bring back what the invalidation removed. */
  lemma InvalidationCanBeUndone(env: Env, p: Query, hits: Hits)
    requires RoundTrips(env, hits)
    ensures var before := [Put(p, hits, true), InvalidateL1];
            var s := Run(env, EMPTY, before + [InvalidateAll(Cleared(true))]);
            && Lookup(Plain(before + [InvalidateAll(Cleared(true))]), p) == None
            && Answer(env, Promote(env, s, p, hits), p, true) == Some(hits)
  {
    var before := [Put(p, hits, true), InvalidateL1];
    var es := before + [InvalidateAll(Cleared(true))];
    assert es[..2] == before && es[2] == InvalidateAll(Cleared(true));
  }

  // ---------------------------------------------------------------- overlapping puts

  /** The two halves of a put: into memory, and later to disk. */
  datatype Half = ToMemory(p: Query, hits: Hits) | ToDisk(p: Query, hits: Hits, stored: bool)

  function HalfStep(env: Env, s: State, h: Half): State {
    match h
    case ToMemory(p, hits) => s.(l1 := s.l1[Key(env, p) := hits])
    case ToDisk(p, hits, stored) => if stored then s.(l2 := s.l2[Key(env, p) := env.encode(hits)]) else s
  }

  function RunHalves(env: Env, s: State, hs: seq<Half>): State {
    if |hs| == 0 then s else HalfStep(env, RunHalves(env, s, hs[..|hs| - 1]), hs[|hs| - 1])
  }

  lemma OneMoreHalf(env: Env, s: State, hs: seq<Half>, h: Half)
    ensures RunHalves(env, s, hs + [h]) == HalfStep(env, RunHalves(env, s, hs), h)
  {
    assert (hs + [h])[..|hs|] == hs;
  }

  /** Without anything in between the halves are a put. */
  lemma HalvesArePut(env: Env, s: State, p: Query, hits: Hits, stored: bool)
    ensures RunHalves(env, s, [ToMemory(p, hits), ToDisk(p, hits, stored)]) == Step(env, s, Put(p, hits, stored))
  {
    OneMoreHalf(env, s, [], ToMemory(p, hits));
    OneMoreHalf(env, s, [ToMemory(p, hits)], ToDisk(p, hits, stored));
    assert [] + [ToMemory(p, hits)] == [ToMemory(p, hits)];
    assert [ToMemory(p, hits)] + [ToDisk(p, hits, stored)] == [ToMemory(p, hits), ToDisk(p, hits, stored)];
  }

  // The value that memory, or disk, was last given for p.
  function LastToMemory(hs: seq<Half>, p: Query): Option<Hits> {
    if |hs| == 0 then None
    else
      var h := hs[|hs| - 1];
      if h.ToMemory? && h.p == p then Some(h.hits) else LastToMemory(hs[..|hs| - 1], p)
  }

  function LastToDisk(hs: seq<Half>, p: Query): Option<Hits> {
    if |hs| == 0 then None
    else
      var h := hs[|hs| - 1];
      if h.ToDisk? && h.p == p && h.stored then Some(h.hits) else LastToDisk(hs[..|hs| - 1], p)
  }

  function OrElse(a: Option<Hits>, b: Option<Hits>): Option<Hits> {
    if a.Some? then a else b
  }

  // Every put writes memory before disk, and what it stores is read back.
  ghost predicate Puts(env: Env, used: set<Query>, hs: seq<Half>) {
    && (forall i :: 0 <= i < |hs| ==> hs[i].p in used && RoundTrips(env, hs[i].hits))
    && (forall i :: 0 <= i < |hs| && hs[i].ToDisk? ==> exists j :: 0 <= j < i && hs[j] == ToMemory(hs[i].p, hs[i].hits))
  }

  lemma {:induction false} HalvesLeave(env: Env, used: set<Query>, s: State, hs: seq<Half>, p: Query)
    requires CollisionFree(env, used) && p in used
    requires forall i :: 0 <= i < |hs| ==> hs[i].p in used && RoundTrips(env, hs[i].hits)
    ensures var t, key := RunHalves(env, s, hs), Key(env, p);
            && ReadL2(env, t, key) == OrElse(LastToDisk(hs, p), ReadL2(env, s, key))
            && (if key in t.l1 then Some(t.l1[key]) else None)
               == OrElse(LastToMemory(hs, p), if key in s.l1 then Some(s.l1[key]) else None)
  {
    hide Key;
    if |hs| > 0 {
      HalvesLeave(env, used, s, hs[..|hs| - 1], p);
      KeysTellApart(env, used, hs[|hs| - 1].p, p);
    }
  }

  lemma {:induction false} MemoryBeforeDisk(hs: seq<Half>, p: Query, i: nat)
    requires i < |hs| && hs[i].ToMemory? && hs[i].p == p
    ensures LastToMemory(hs, p).Some?
  {
    if i < |hs| - 1 && !(hs[|hs| - 1].ToMemory? && hs[|hs| - 1].p == p) {
      MemoryBeforeDisk(hs[..|hs| - 1], p, i);
    }
  }

  lemma {:induction false} DiskWriteAt(hs: seq<Half>, p: Query) returns (i: nat)
    requires LastToDisk(hs, p).Some?
    ensures i < |hs| && hs[i].ToDisk? && hs[i].p == p
  {
    if hs[|hs| - 1].ToDisk? && hs[|hs| - 1].p == p {
      i := |hs| - 1;
    } else {
      i := DiskWriteAt(hs[..|hs| - 1], p);
    }
  }

  /** Puts whose halves come in any order after a run: memory answers with the last value given to it, and once it
      drops the entry disk answers with the last value given to it. The loss is invisible if and only if no put gave
      memory a value or the last of each are the same value. */
  lemma OverlappingPuts(env: Env, used: set<Query>, before: seq<Event>, hs: seq<Half>, p: Query)
    requires CollisionFree(env, used) && p in used && Puts(env, used, hs)
    requires forall i :: 0 <= i < |before| ==> Names(before[i], used) && Works(env, before[i])
    ensures var t := RunHalves(env, Run(env, EMPTY, before), hs);
            var dropped := Step(env, t, Evict({Key(env, p)}));
            var was := Lookup(Plain(before), p);
            && Answer(env, t, p, true) == OrElse(LastToMemory(hs, p), was)
            && Answer(env, dropped, p, true) == OrElse(LastToDisk(hs, p), was)
            && (Answer(env, dropped, p, true) == Answer(env, t, p, true) <==>
                  LastToMemory(hs, p) == None || LastToMemory(hs, p) == OrElse(LastToDisk(hs, p), was))
  {
    RunRepresents(env, used, before);
    HalvesLeave(env, used, Run(env, EMPTY, before), hs, p);
    if LastToDisk(hs, p).Some? {
      var i := DiskWriteAt(hs, p);
      var j :| 0 <= j < i && hs[j] == ToMemory(hs[i].p, hs[i].hits);
      MemoryBeforeDisk(hs, p, j);
    }
    hide Key, Puts, Run, Plain, LastToDisk, LastToMemory, CollisionFree;
  }

  /** Two overlapping puts can leave memory and disk with different values, so that the answer goes back later. */
  lemma TwoPutsDisagree(env: Env, s: State, p: Query, v: Hits, w: Hits)
    requires RoundTrips(env, v)
    ensures var t := RunHalves(env, s, [ToMemory(p, v), ToMemory(p, w), ToDisk(p, w, true), ToDisk(p, v, true)]);
            Answer(env, t, p, true) == Some(w) && Answer(env, Step(env, t, Evict({Key(env, p)})), p, true) == Some(v)
  {
    var first, second := [ToMemory(p, v)], [ToMemory(p, v), ToMemory(p, w)];
    var third := second + [ToDisk(p, w, true)];
    OneMoreHalf(env, s, [], ToMemory(p, v));
    OneMoreHalf(env, s, first, ToMemory(p, w));
    OneMoreHalf(env, s, second, ToDisk(p, w, true));
    OneMoreHalf(env, s, third, ToDisk(p, v, true));
    assert [] + first == first && first + [ToMemory(p, w)] == second;
    assert third + [ToDisk(p, v, true)] == [ToMemory(p, v), ToMemory(p, w), ToDisk(p, w, true), ToDisk(p, v, true)];
  }
}
