/** Reciprocal rank fusion of the vector lane and the BM25 lane, with exact arithmetic for the scores. */
module RankFusion {
  type Id = string

  datatype Field = Text(value: string) | Other(raw: string)
  datatype Payload = Fields(fields: map<string, Field>) | NoFields(raw: string)
  datatype SearchHit = SearchHit(id: Id, score: real, payload: Payload)
  datatype Bm25Hit = Bm25Hit(id: Id, score: real, source: string, text: string)
  datatype RecallHit = RecallHit(id: Id, score: real, text: string, source: string, payload: Payload)

  const RRF_K := 60.0

  function Contribution(rank: nat): (c: real)
    ensures c > 0.0
  {
    1.0 / (RRF_K + rank as real)
  }

  function TextField(p: Payload, name: string): string {
    if p.Fields? && name in p.fields && p.fields[name].Text? then p.fields[name].value else ""
  }

  function MapHit(h: SearchHit): RecallHit {
    RecallHit(h.id, h.score, TextField(h.payload, "text"), TextField(h.payload, "source"), h.payload)
  }

  function Synthesize(h: Bm25Hit): RecallHit {
    RecallHit(h.id, 0.0, h.text, h.source, Fields(map["source" := Text(h.source), "text" := Text(h.text)]))
  }

  function VectorLane(hits: seq<SearchHit>): (lane: seq<RecallHit>) {
    seq(|hits|, i requires 0 <= i < |hits| => MapHit(hits[i]))
  }

  function Bm25Lane(hits: seq<Bm25Hit>): (lane: seq<RecallHit>) {
    seq(|hits|, i requires 0 <= i < |hits| => Synthesize(hits[i]))
  }

  // ---------------------------------------------------------------- what fusion means

  /** The sum of the contributions of every place where a lane names the document. */
  function LaneScore(lane: seq<RecallHit>, id: Id): (s: real)
    ensures s >= 0.0
  {
    if lane == [] then 0.0
    else LaneScore(lane[..|lane| - 1], id)
         + (if lane[|lane| - 1].id == id then Contribution(|lane| - 1) else 0.0)
  }

  function FusedScore(vec: seq<RecallHit>, bm: seq<RecallHit>, id: Id): real {
    LaneScore(vec, id) + LaneScore(bm, id)
  }

  function Ids(lane: seq<RecallHit>): set<Id> {
    set h | h in lane :: h.id
  }

  // The hit of the first place that names the document.
  ghost predicate IsFirst(lane: seq<RecallHit>, hit: RecallHit) {
    exists i :: 0 <= i < |lane| && lane[i] == hit && forall j :: 0 <= j < i ==> lane[j].id != hit.id
  }

  ghost predicate Distinct(lane: seq<RecallHit>) {
    forall i, j :: 0 <= i < j < |lane| ==> lane[i].id != lane[j].id
  }

  ghost predicate Descending(s: seq<RecallHit>) {
    forall i, j :: 0 <= i < j < |s| ==> s[i].score >= s[j].score
  }

  // A result carries the fused score and, for the rest, the first hit of the vector lane, else of the other.
  ghost predicate IsFused(vec: seq<RecallHit>, bm: seq<RecallHit>, hit: RecallHit) {
    hit.score == FusedScore(vec, bm, hit.id) &&
    exists raw: real :: IsFirst(vec + bm, hit.(score := raw))
  }

  /** The best topK of all documents that a lane names, each once, best first. */
  ghost predicate IsRanking(vec: seq<RecallHit>, bm: seq<RecallHit>, topK: nat, out: seq<RecallHit>) {
    var all := Ids(vec) + Ids(bm);
    && |out| == (if topK < |all| then topK else |all|)
    && Distinct(out) && Descending(out)
    && (forall i :: 0 <= i < |out| ==> IsFused(vec, bm, out[i]))
    && (forall id, i :: id in all - Ids(out) && 0 <= i < |out| ==> FusedScore(vec, bm, id) <= out[i].score)
  }

  // ---------------------------------------------------------------- the accumulator

  datatype Entry = Entry(score: real, hit: RecallHit)
  type Accumulator = map<Id, Entry>

  function Add(acc: Accumulator, hit: RecallHit, contribution: real): Accumulator {
    if hit.id in acc then acc[hit.id := Entry(acc[hit.id].score + contribution, acc[hit.id].hit)]
    else acc[hit.id := Entry(0.0 + contribution, hit)]
  }

  ghost predicate Accumulated(acc: Accumulator, vec: seq<RecallHit>, bm: seq<RecallHit>) {
    acc.Keys == Ids(vec + bm) &&
    forall id :: id in acc ==>
      acc[id].hit.id == id && acc[id].score == FusedScore(vec, bm, id) && IsFirst(vec + bm, acc[id].hit)
  }

  lemma {:induction false} NotNamedNoScore(lane: seq<RecallHit>, id: Id)
    requires id !in Ids(lane)
    ensures LaneScore(lane, id) == 0.0
  {
    if lane != [] {
      assert lane[|lane| - 1] in lane;
      NotNamedNoScore(lane[..|lane| - 1], id);
    }
  }

  lemma FirstStaysFirst(lane: seq<RecallHit>, hit: RecallHit, more: RecallHit)
    requires IsFirst(lane, hit)
    ensures IsFirst(lane + [more], hit)
  {
    var i :| 0 <= i < |lane| && lane[i] == hit && forall j :: 0 <= j < i ==> lane[j].id != hit.id;
    assert (lane + [more])[i] == hit;
  }

  lemma NewIsFirst(lane: seq<RecallHit>, more: RecallHit)
    requires more.id !in Ids(lane)
    ensures IsFirst(lane + [more], more)
  {
    var longer := lane + [more];
    assert longer[|lane|] == more;
    forall j | 0 <= j < |lane| ensures longer[j].id != more.id {
      assert longer[j] == lane[j] && lane[j] in lane;
    }
  }

  lemma IdsOfOneMore(lane: seq<RecallHit>, more: RecallHit)
    ensures Ids(lane + [more]) == Ids(lane) + {more.id}
  {}

  // The next hit of the vector lane (first case, with bm empty) or of the BM25 lane.
  lemma AddKeeps(acc: Accumulator, vec: seq<RecallHit>, bm: seq<RecallHit>, hit: RecallHit)
    requires Accumulated(acc, vec, bm)
    ensures bm == [] ==> Accumulated(Add(acc, hit, Contribution(|vec|)), vec + [hit], [])
    ensures Accumulated(Add(acc, hit, Contribution(|bm|)), vec, bm + [hit])
  {
    hide FusedScore, IsFirst, LaneScore, Ids;
    var all := vec + bm;
    IdsOfOneMore(all, hit);
    assert vec + (bm + [hit]) == all + [hit];
    assert bm == [] ==> (vec + [hit]) + [] == all + [hit];
    forall id | id in acc.Keys + {hit.id}
      ensures FusedScore(vec, bm + [hit], id) ==
              FusedScore(vec, bm, id) + (if hit.id == id then Contribution(|bm|) else 0.0)
      ensures FusedScore(vec + [hit], bm, id) ==
              FusedScore(vec, bm, id) + (if hit.id == id then Contribution(|vec|) else 0.0)
    {
      FusedOfOneMore(vec, bm, hit, id);
    }
    if hit.id !in acc {
      NewIsFirst(all, hit);
      NewScoresZero(vec, bm, hit.id);
    }
    forall id | id in acc ensures IsFirst(all + [hit], acc[id].hit) {
      FirstStaysFirst(all, acc[id].hit, hit);
    }
  }

  lemma NewScoresZero(vec: seq<RecallHit>, bm: seq<RecallHit>, id: Id)
    requires id !in Ids(vec + bm)
    ensures FusedScore(vec, bm, id) == 0.0
  {
    IdsOfBoth(vec, bm);
    NotNamedNoScore(vec, id);
    NotNamedNoScore(bm, id);
  }

  lemma FusedOfOneMore(vec: seq<RecallHit>, bm: seq<RecallHit>, hit: RecallHit, id: Id)
    ensures FusedScore(vec, bm + [hit], id) ==
            FusedScore(vec, bm, id) + (if hit.id == id then Contribution(|bm|) else 0.0)
    ensures FusedScore(vec + [hit], bm, id) ==
            FusedScore(vec, bm, id) + (if hit.id == id then Contribution(|vec|) else 0.0)
  {}

  lemma IdsOfBoth(vec: seq<RecallHit>, bm: seq<RecallHit>)
    ensures Ids(vec + bm) == Ids(vec) + Ids(bm)
  {}

  // ---------------------------------------------------------------- sorting by score

  function Insert(h: RecallHit, s: seq<RecallHit>): (r: seq<RecallHit>)
    ensures |r| == |s| + 1 && forall x :: x in r <==> x == h || x in s
  {
    if s == [] || h.score > s[0].score then [h] + s
    else
      assert s == [s[0]] + s[1..];
      [s[0]] + Insert(h, s[1..])
  }

  lemma {:induction false} InsertDescends(h: RecallHit, s: seq<RecallHit>)
    requires Descending(s)
    ensures Descending(Insert(h, s))
  {
    if s != [] && h.score <= s[0].score {
      InsertDescends(h, s[1..]);
      var rest := Insert(h, s[1..]);
      forall j | 0 <= j < |rest| ensures s[0].score >= rest[j].score {
        assert rest[j] in rest;
      }
    }
  }

  lemma {:induction false} InsertDistinct(h: RecallHit, s: seq<RecallHit>)
    requires Distinct(s) && forall i :: 0 <= i < |s| ==> s[i].id != h.id
    ensures Distinct(Insert(h, s))
  {
    if s != [] && h.score <= s[0].score {
      InsertDistinct(h, s[1..]);
      var rest := Insert(h, s[1..]);
      forall j | 0 <= j < |rest| ensures s[0].id != rest[j].id {
        assert rest[j] in rest;
      }
    }
  }

  // The library's stable sort, largest score first.
  function SortedByScore(s: seq<RecallHit>): (r: seq<RecallHit>)
    ensures |r| == |s| && forall x :: x in r <==> x in s
  {
    if s == [] then []
    else
      assert s == s[..|s| - 1] + [s[|s| - 1]];
      Insert(s[|s| - 1], SortedByScore(s[..|s| - 1]))
  }

  lemma {:induction false} SortDescends(s: seq<RecallHit>)
    ensures Descending(SortedByScore(s))
    ensures Distinct(s) ==> Distinct(SortedByScore(s))
  {
    if s != [] {
      var rest := SortedByScore(s[..|s| - 1]);
      SortDescends(s[..|s| - 1]);
      InsertDescends(s[|s| - 1], rest);
      if Distinct(s) {
        forall i | 0 <= i < |rest| ensures rest[i].id != s[|s| - 1].id {
          assert rest[i] in rest;
        }
        InsertDistinct(s[|s| - 1], rest);
      }
    }
  }

  // ---------------------------------------------------------------- the algorithm

  // Hits already taken out of the map, each with its accumulated score.
  ghost predicate Collected(acc: Accumulator, left: set<Id>, hits: seq<RecallHit>) {
    && left <= acc.Keys && |hits| + |left| == |acc.Keys|
    && Distinct(hits) && Ids(hits) == acc.Keys - left
    && forall h :: h in hits ==> h.id in acc && h == acc[h.id].hit.(score := acc[h.id].score)
  }

  lemma CollectOne(acc: Accumulator, left: set<Id>, hits: seq<RecallHit>, id: Id)
    requires Collected(acc, left, hits) && id in left && acc[id].hit.id == id
    ensures Collected(acc, left - {id}, hits + [acc[id].hit.(score := acc[id].score)])
  {
    hide Ids;
    var h := acc[id].hit.(score := acc[id].score);
    NotAmong(hits, id);
    IdsOfOneMore(hits, h);
  }

  lemma NotAmong(hits: seq<RecallHit>, id: Id)
    requires id !in Ids(hits)
    ensures forall i :: 0 <= i < |hits| ==> hits[i].id != id
  {}

  lemma CollectedIsFused(acc: Accumulator, vec: seq<RecallHit>, bm: seq<RecallHit>, hits: seq<RecallHit>, h: RecallHit)
    requires Accumulated(acc, vec, bm) && Collected(acc, {}, hits) && h in hits
    ensures IsFused(vec, bm, h)
  {}

  lemma OmittedIsNoBetter(hits: seq<RecallHit>, s: seq<RecallHit>, n: nat, id: Id, i: nat)
    requires Descending(s) && (forall x :: x in s <==> x in hits) && i < n <= |s|
    requires id in Ids(hits) && id !in Ids(s[..n])
    ensures exists h :: h in hits && h.id == id && h.score <= s[i].score
  {}

  // All hits sorted, or the first topK of them, are a ranking.
  lemma SortedIsRanking(acc: Accumulator, vec: seq<RecallHit>, bm: seq<RecallHit>, hits: seq<RecallHit>, topK: nat)
    requires Accumulated(acc, vec, bm) && Collected(acc, {}, hits)
    ensures var s := SortedByScore(hits); IsRanking(vec, bm, topK, if |s| <= topK then s else s[..topK])
  {
    hide FusedScore, SortedByScore, IsFirst, IsFused, Distinct, Descending, Ids;
    var s := SortedByScore(hits);
    var n := if |s| <= topK then |s| else topK;
    assert (if |s| <= topK then s else s[..topK]) == s[..n];
    IdsOfBoth(vec, bm);
    SortDescends(hits);
    RankingOf(acc, vec, bm, hits, s, n);
  }

  lemma RankingOf(acc: Accumulator, vec: seq<RecallHit>, bm: seq<RecallHit>,
                  hits: seq<RecallHit>, s: seq<RecallHit>, n: nat)
    requires Accumulated(acc, vec, bm) && Collected(acc, {}, hits)
    requires Descending(s) && Distinct(s) && (forall x :: x in s <==> x in hits) && n <= |s|
    ensures Distinct(s[..n]) && Descending(s[..n])
    ensures forall i :: 0 <= i < n ==> IsFused(vec, bm, s[..n][i])
    ensures forall id, i :: id in acc.Keys - Ids(s[..n]) && 0 <= i < n ==> FusedScore(vec, bm, id) <= s[..n][i].score
  {
    hide FusedScore, IsFirst;
    forall i | 0 <= i < n ensures IsFused(vec, bm, s[..n][i]) {
      assert s[i] in hits;
      CollectedIsFused(acc, vec, bm, hits, s[i]);
    }
    forall id, i | id in acc.Keys - Ids(s[..n]) && 0 <= i < n ensures FusedScore(vec, bm, id) <= s[..n][i].score {
      OmittedIsNoBetter(hits, s, n, id, i);
      var h :| h in hits && h.id == id && h.score <= s[i].score;
      CollectedIsFused(acc, vec, bm, hits, h);
    }
  }

  // What a payload says under a name: its text, or nothing when it has no such text.
  ghost predicate SaysUnder(p: Payload, name: string, value: string) {
    match p
    case Fields(fields) =>
      if name in fields then (match fields[name] case Text(t) => value == t case Other(_) => value == "")
      else value == ""
    case NoFields(_) => value == ""
  }

  /** A result carries payload, text and source of the first vector hit for its document; only when there is none,
      text and source of the first BM25 hit, with a payload of just these two. */
  lemma FusedCarries(vecHits: seq<SearchHit>, bmHits: seq<Bm25Hit>, hit: RecallHit) returns (i: nat)
    requires IsFused(VectorLane(vecHits), Bm25Lane(bmHits), hit)
    ensures if exists v | v in vecHits :: v.id == hit.id then
              && i < |vecHits| && vecHits[i].id == hit.id && (forall j | 0 <= j < i :: vecHits[j].id != hit.id)
              && hit.payload == vecHits[i].payload
              && SaysUnder(hit.payload, "text", hit.text) && SaysUnder(hit.payload, "source", hit.source)
            else
              && i < |bmHits| && bmHits[i].id == hit.id && (forall j | 0 <= j < i :: bmHits[j].id != hit.id)
              && hit.text == bmHits[i].text && hit.source == bmHits[i].source
              && hit.payload == Fields(map["source" := Text(hit.source), "text" := Text(hit.text)])
  {
    hide FusedScore, LaneScore, SaysUnder;
    var vec, bm := VectorLane(vecHits), Bm25Lane(bmHits);
    var raw: real :| IsFirst(vec + bm, hit.(score := raw));
    i := FirstPlace(vec, bm, hit.(score := raw));
    assert forall j | 0 <= j < |vecHits| :: vecHits[j].id == vec[j].id;
    assert forall j | 0 <= j < |bmHits| :: bmHits[j].id == bm[j].id;
    if i < |vec| {
      MappedSays(vecHits[i]);
    } else {
      i := i - |vec|;
    }
  }

  lemma FirstPlace(vec: seq<RecallHit>, bm: seq<RecallHit>, hit: RecallHit) returns (i: nat)
    requires IsFirst(vec + bm, hit)
    ensures i < |vec| ==> vec[i] == hit && forall j | 0 <= j < i :: vec[j].id != hit.id
    ensures i >= |vec| ==> && (forall j | 0 <= j < |vec| :: vec[j].id != hit.id)
                           && i - |vec| < |bm| && bm[i - |vec|] == hit
                           && forall j | 0 <= j < i - |vec| :: bm[j].id != hit.id
  {
    var all := vec + bm;
    i :| 0 <= i < |all| && all[i] == hit && forall j | 0 <= j < i :: all[j].id != hit.id;
    assert forall j | 0 <= j < |vec| :: vec[j] == all[j];
    assert forall j | 0 <= j < |bm| :: bm[j] == all[|vec| + j];
  }

  lemma MappedSays(h: SearchHit)
    ensures var m := MapHit(h);
            m.payload == h.payload && SaysUnder(h.payload, "text", m.text) && SaysUnder(h.payload, "source", m.source)
  {}

  /** Fuses the lanes: whatever order the hash map yields its values in, the result is a ranking. */
  method RrfFuse(vecHits: seq<SearchHit>, bmHits: seq<Bm25Hit>, topK: nat) returns (fused: seq<RecallHit>)
    ensures IsRanking(VectorLane(vecHits), Bm25Lane(bmHits), topK, fused)
  {
    hide IsRanking, SortedByScore, FusedScore, IsFirst, Add, Distinct;
    ghost var vec, bm := VectorLane(vecHits), Bm25Lane(bmHits);
    var acc: Accumulator := map[];
    for rank := 0 to |vecHits|
      invariant Accumulated(acc, vec[..rank], [])
    {
      AddKeeps(acc, vec[..rank], [], vec[rank]);
      assert vec[..rank + 1] == vec[..rank] + [vec[rank]];
      acc := Add(acc, MapHit(vecHits[rank]), Contribution(rank));
    }
    assert vec[..|vecHits|] == vec && bm[..0] == [];
    for rank := 0 to |bmHits|
      invariant Accumulated(acc, vec, bm[..rank])
    {
      AddKeeps(acc, vec, bm[..rank], bm[rank]);
      assert bm[..rank + 1] == bm[..rank] + [bm[rank]];
      acc := Add(acc, Synthesize(bmHits[rank]), Contribution(rank));
    }
    assert bm[..|bmHits|] == bm;
    var hits: seq<RecallHit> := [];
    var left := acc.Keys;
    NothingCollected(acc);
    while left != {}
      invariant Collected(acc, left, hits)
      decreases left
    {
      var id :| id in left;
      CollectOne(acc, left, hits, id);
      hits := hits + [acc[id].hit.(score := acc[id].score)];
      left := left - {id};
    }
    SortedIsRanking(acc, vec, bm, hits, topK);
    fused := SortedByScore(hits);
    if |fused| > topK {
      fused := fused[..topK];
    }
  }

  lemma NothingCollected(acc: Accumulator)
    ensures Collected(acc, acc.Keys, [])
  {}

  // ---------------------------------------------------------------- what the scores mean

  lemma {:induction false} ScoreAtRank(lane: seq<RecallHit>, rank: nat)
    requires Distinct(lane) && rank < |lane|
    ensures LaneScore(lane, lane[rank].id) == Contribution(rank)
  {
    var n := |lane| - 1;
    if rank < n {
      ScoreAtRank(lane[..n], rank);
    } else {
      forall h | h in lane[..n] ensures h.id != lane[n].id {
        var i :| 0 <= i < n && lane[i] == h;
      }
      NotNamedNoScore(lane[..n], lane[n].id);
    }
  }

  /** A document at ranks a and b of the two lanes against one at rank c of a single lane. */
  lemma BothAgainstSingle(vec: seq<RecallHit>, bm: seq<RecallHit>, a: nat, b: nat, id: Id, c: nat)
    requires Distinct(vec) && Distinct(bm) && a < |vec| && b < |bm| && vec[a].id == bm[b].id
    requires (c < |vec| && vec[c].id == id && id !in Ids(bm)) || (c < |bm| && bm[c].id == id && id !in Ids(vec))
    ensures FusedScore(vec, bm, vec[a].id) > FusedScore(vec, bm, id)
            <==> (60 + a) * (60 + b) < (60 + c) * (120 + a + b)
  {
    hide LaneScore, Contribution;
    ScoreAtRank(vec, a);
    ScoreAtRank(bm, b);
    if c < |vec| && vec[c].id == id && id !in Ids(bm) {
      ScoreAtRank(vec, c);
      NotNamedNoScore(bm, id);
    } else {
      ScoreAtRank(bm, c);
      NotNamedNoScore(vec, id);
    }
    SumAgainst(a, b, c);
  }

  lemma SumAgainst(a: nat, b: nat, c: nat)
    ensures Contribution(a) + Contribution(b) > Contribution(c)
            <==> (60 + a) * (60 + b) < (60 + c) * (120 + a + b)
  {}

  /** Being in both lanes beats being in one: at ranks whose product is under 3600, whatever the single rank. */
  lemma BothBeatAnySingle(vec: seq<RecallHit>, bm: seq<RecallHit>, a: nat, b: nat, id: Id)
    requires Distinct(vec) && Distinct(bm) && a < |vec| && b < |bm| && vec[a].id == bm[b].id
    requires (id in Ids(vec)) != (id in Ids(bm))
    requires a * b < 3600
    ensures FusedScore(vec, bm, vec[a].id) > FusedScore(vec, bm, id)
  {
    hide FusedScore, Ids;
    var c := RankInOneLane(vec, bm, id);
    BothAgainstSingle(vec, bm, a, b, id, c);
    ProductRule(a, b, c);
  }

  lemma RankInOneLane(vec: seq<RecallHit>, bm: seq<RecallHit>, id: Id) returns (c: nat)
    requires (id in Ids(vec)) != (id in Ids(bm))
    ensures (c < |vec| && vec[c].id == id && id !in Ids(bm)) || (c < |bm| && bm[c].id == id && id !in Ids(vec))
  {
    if id in Ids(vec) {
      c :| 0 <= c < |vec| && vec[c].id == id;
    } else {
      c :| 0 <= c < |bm| && bm[c].id == id;
    }
  }

  lemma ProductRule(a: nat, b: nat, c: nat)
    ensures a * b < 3600 ==> (60 + a) * (60 + b) < (60 + c) * (120 + a + b)
    ensures (60 + a) * (60 + b) < 60 * (120 + a + b) <==> a * b < 3600
  {}

  /** In the first 60 of both lanes: always ahead of every document of a single lane. */
  lemma FirstSixtyOfBothWin(vec: seq<RecallHit>, bm: seq<RecallHit>, a: nat, b: nat, id: Id)
    requires Distinct(vec) && Distinct(bm) && a < |vec| && b < |bm| && vec[a].id == bm[b].id
    requires (id in Ids(vec)) != (id in Ids(bm))
    requires a < 60 && b < 60
    ensures FusedScore(vec, bm, vec[a].id) > FusedScore(vec, bm, id)
  {
    assert a * b <= 59 * b;
    BothBeatAnySingle(vec, bm, a, b, id);
  }

  /** The bound cannot be moved: from a product of 3600 on, in particular at rank 60 of both lanes,
      the first document of a lane is at least as good if the other lane does not name it. */
  lemma SixtyIsTight(vec: seq<RecallHit>, bm: seq<RecallHit>, a: nat, b: nat)
    requires Distinct(vec) && Distinct(bm) && a < |vec| && b < |bm| && vec[a].id == bm[b].id
    requires vec[0].id !in Ids(bm)
    ensures FusedScore(vec, bm, vec[0].id) >= FusedScore(vec, bm, vec[a].id) <==> a * b >= 3600
    ensures a == b == 60 ==> FusedScore(vec, bm, vec[0].id) == FusedScore(vec, bm, vec[a].id)
  {
    BothAgainstSingle(vec, bm, a, b, vec[0].id, 0);
    ProductRule(a, b, 0);
    ScoreAtRank(vec, 0);
    ScoreAtRank(vec, a);
    ScoreAtRank(bm, b);
    NotNamedNoScore(bm, vec[0].id);
  }

  // ---------------------------------------------------------------- one lane alone

  lemma LaterContributesLess(i: nat, j: nat)
    requires i < j
    ensures Contribution(i) > Contribution(j)
  {}

  lemma LaterRankScoresLess(vec: seq<RecallHit>, bm: seq<RecallHit>, i: nat, j: nat)
    requires (vec == [] || bm == []) && Distinct(vec + bm) && i < j < |vec + bm|
    ensures FusedScore(vec, bm, (vec + bm)[i].id) > FusedScore(vec, bm, (vec + bm)[j].id)
  {
    var lane := vec + bm;
    assert lane == vec || lane == bm;
    ScoreAtRank(lane, i);
    ScoreAtRank(lane, j);
    LaterContributesLess(i, j);
  }

  lemma FusedIsNamed(vec: seq<RecallHit>, bm: seq<RecallHit>, hit: RecallHit) returns (j: nat)
    requires IsFused(vec, bm, hit)
    ensures j < |vec + bm| && (vec + bm)[j].id == hit.id
  {
    var raw: real :| IsFirst(vec + bm, hit.(score := raw));
    j :| 0 <= j < |vec + bm| && (vec + bm)[j] == hit.(score := raw);
  }

  lemma NoneOvertaken(vec: seq<RecallHit>, bm: seq<RecallHit>, topK: nat, out: seq<RecallHit>, k: nat)
    requires Distinct(vec + bm) && IsRanking(vec, bm, topK, out) && k < |out| && k < |vec + bm|
    requires forall i :: 0 <= i < k ==> out[i].id == (vec + bm)[i].id
    ensures FusedScore(vec, bm, (vec + bm)[k].id) <= out[k].score
  {}

  /** When only one lane answers, the ranking is that lane's own order. */
  lemma {:induction false} SingleLanePassesThrough(vec: seq<RecallHit>, bm: seq<RecallHit>, topK: nat,
                                                   out: seq<RecallHit>, n: nat)
    requires (vec == [] || bm == []) && Distinct(vec + bm)
    requires IsRanking(vec, bm, topK, out) && n <= |out|
    ensures n <= |vec + bm| && forall i :: 0 <= i < n ==> out[i].id == (vec + bm)[i].id
  {
    hide FusedScore, IsFused, IsFirst, Ids;
    if n > 0 {
      SingleLanePassesThrough(vec, bm, topK, out, n - 1);
      var j := FusedIsNamed(vec, bm, out[n - 1]);
      ScoreOfNamed(vec, bm, out[n - 1]);
      if j >= n - 1 {
        NoneOvertaken(vec, bm, topK, out, n - 1);
        if j > n - 1 { LaterRankScoresLess(vec, bm, n - 1, j); }
      }
    }
  }

  lemma ScoreOfNamed(vec: seq<RecallHit>, bm: seq<RecallHit>, hit: RecallHit)
    requires IsFused(vec, bm, hit)
    ensures hit.score == FusedScore(vec, bm, hit.id)
  {}
}
