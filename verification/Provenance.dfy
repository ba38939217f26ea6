/** Sealed envelopes linked by hashes, and the walk that checks a chain of them. */
module Provenance {
  import opened Wrappers
  import opened ByteStrings

  // The length of a slice is a 64-bit number.
  type Text = s: Bytes | |s| < TWO_64

  /** The hex digest of a byte string; nothing is known of it but what a lemma assumes. */
  type Digest = Bytes -> Text

  // 64 zero digits.
  const ZEROS_16: Bytes := [48, 48, 48, 48, 48, 48, 48, 48, 48, 48, 48, 48, 48, 48, 48, 48]
  const GENESIS: Text := ZEROS_16 + ZEROS_16 + ZEROS_16 + ZEROS_16

  datatype Envelope = Envelope(id: Text, prevHash: Text, json: Text, hash: Text)
  datatype ChainError = BrokenLink(index: nat, expected: Text, got: Text) | BadHash(index: nat, id: Text)

  // ---------------------------------------------------------------- framing

  function BigEndian(n: nat, width: nat): (b: Bytes)
    ensures |b| == width
    decreases width
  {
    if width == 0 then [] else BigEndian(n / 256, width - 1) + [n % 256]
  }

  function Frame(part: Text): Bytes {
    BigEndian(|part|, 8) + part
  }

  function Preimage(id: Text, prev: Text, json: Text): Bytes {
    Frame(id) + Frame(prev) + Frame(json)
  }

  lemma {:induction false} BigEndianInjective(m: nat, n: nat, width: nat)
    requires m < Pow256(width) && n < Pow256(width)
    requires BigEndian(m, width) == BigEndian(n, width)
    ensures m == n
    decreases width
  {
    if width > 0 {
      var p, q := BigEndian(m, width), BigEndian(n, width);
      assert p[..width - 1] == q[..width - 1] && p[width - 1] == q[width - 1];
      BigEndianInjective(m / 256, n / 256, width - 1);
    }
  }

  // The length in front says where a framed part ends.
  lemma FrameSplits(p: Text, q: Text, x: Bytes, y: Bytes)
    requires Frame(p) + x == Frame(q) + y
    ensures p == q && x == y
  {
    hide BigEndian;
    var s, t := Frame(p) + x, Frame(q) + y;
    assert s[..8] == BigEndian(|p|, 8) && t[..8] == BigEndian(|q|, 8);
    assert TWO_64 == Pow256(8);
    BigEndianInjective(|p|, |q|, 8);
    assert s[8..8 + |p|] == p && t[8..8 + |q|] == q;
    assert s[8 + |p|..] == x && t[8 + |q|..] == y;
  }

  /** No bytes can move between fields: the hashed string determines all three. */
  lemma PreimageInjective(a: Envelope, b: Envelope)
    ensures Preimage(a.id, a.prevHash, a.json) == Preimage(b.id, b.prevHash, b.json)
            <==> a.id == b.id && a.prevHash == b.prevHash && a.json == b.json
  {
    hide Frame;
    if Preimage(a.id, a.prevHash, a.json) == Preimage(b.id, b.prevHash, b.json) {
      assert Preimage(a.id, a.prevHash, a.json) == Frame(a.id) + (Frame(a.prevHash) + Frame(a.json));
      assert Preimage(b.id, b.prevHash, b.json) == Frame(b.id) + (Frame(b.prevHash) + Frame(b.json));
      FrameSplits(a.id, b.id, Frame(a.prevHash) + Frame(a.json), Frame(b.prevHash) + Frame(b.json));
      FrameSplits(a.prevHash, b.prevHash, Frame(a.json), Frame(b.json));
      assert Frame(a.json) + [] == Frame(a.json) && Frame(b.json) + [] == Frame(b.json);
      FrameSplits(a.json, b.json, [], []);
    }
  }

  function BigEndianValue(b: Bytes): nat {
    if b == [] then 0 else BigEndianValue(b[..|b| - 1]) * 256 + b[|b| - 1]
  }

  lemma {:induction false} BigEndianReads(n: nat, width: nat)
    requires n < Pow256(width)
    ensures BigEndianValue(BigEndian(n, width)) == n
    decreases width
  {
    if width > 0 {
      BigEndianReads(n / 256, width - 1);
    }
  }

  /** What is hashed: identifier, previous hash and JSON in this order, each after its length in eight bytes with the
      highest first. */
  lemma PreimageLayout(id: Text, prev: Text, json: Text)
    ensures var (t, i) := (Preimage(id, prev, json), 8 + |id|);
            var j := i + 8 + |prev|;
            && |t| == j + 8 + |json|
            && BigEndianValue(t[..8]) == |id| && t[8..i] == id
            && BigEndianValue(t[i..i + 8]) == |prev| && t[i + 8..j] == prev
            && BigEndianValue(t[j..j + 8]) == |json| && t[j + 8..] == json
  {
    hide BigEndian, BigEndianValue;
    assert TWO_64 == Pow256(8);
    BigEndianReads(|id|, 8);
    BigEndianReads(|prev|, 8);
    BigEndianReads(|json|, 8);
    var (t, i) := (Preimage(id, prev, json), 8 + |id|);
    var j := i + 8 + |prev|;
    assert t[..8] == BigEndian(|id|, 8) && t[i..i + 8] == BigEndian(|prev|, 8) && t[j..j + 8] == BigEndian(|json|, 8);
  }

  // ---------------------------------------------------------------- sealing and checking

  function ComputeHash(sha: Digest, e: Envelope): Text {
    sha(Preimage(e.id, e.prevHash, e.json))
  }

  /** Seal canonical JSON under a fresh identifier. */
  function Seal(sha: Digest, prev: Text, json: Text, id: Text): (e: Envelope)
    ensures Verify(sha, e) && e.prevHash == prev && e.json == json && e.id == id
  {
    Envelope(id, prev, json, sha(Preimage(id, prev, json)))
  }

  predicate Verify(sha: Digest, e: Envelope) {
    ComputeHash(sha, e) == e.hash
  }

  /** The hash that the next link must name. */
  function Head(chain: seq<Envelope>): Text {
    if |chain| == 0 then GENESIS else chain[|chain| - 1].hash
  }

  predicate LinkAt(sha: Digest, chain: seq<Envelope>, i: nat)
    requires i < |chain|
  {
    chain[i].prevHash == Head(chain[..i]) && Verify(sha, chain[i])
  }

  predicate Verified(sha: Digest, chain: seq<Envelope>) {
    forall i | 0 <= i < |chain| :: LinkAt(sha, chain, i)
  }

  /** The first link that does not fit, and what is wrong with it. */
  predicate FirstBad(sha: Digest, chain: seq<Envelope>, error: ChainError) {
    var i := error.index;
    && i < |chain| && !LinkAt(sha, chain, i) && (forall j | 0 <= j < i :: LinkAt(sha, chain, j))
    && error == if chain[i].prevHash != Head(chain[..i])
                then BrokenLink(i, Head(chain[..i]), chain[i].prevHash)
                else BadHash(i, chain[i].id)
  }

  /** Accepts exactly the verified chains; a refusal names the first bad link and what is wrong with it. */
  method VerifyChain(sha: Digest, chain: seq<Envelope>) returns (r: Result<(), ChainError>)
    ensures r.Ok? <==> Verified(sha, chain)
    ensures r.Err? ==> FirstBad(sha, chain, r.error)
  {
    hide ComputeHash;
    if |chain| == 0 {
      return Ok(());
    }
    var expectedPrev := GENESIS;
    var i := 0;
    while i < |chain|
      invariant 0 <= i <= |chain| && expectedPrev == Head(chain[..i])
      invariant forall j | 0 <= j < i :: LinkAt(sha, chain, j)
    {
      assert LinkAt(sha, chain, i) <==> chain[i].prevHash == expectedPrev && Verify(sha, chain[i]);
      if chain[i].prevHash != expectedPrev {
        return Err(BrokenLink(i, expectedPrev, chain[i].prevHash));
      }
      if !Verify(sha, chain[i]) {
        return Err(BadHash(i, chain[i].id));
      }
      expectedPrev := chain[i].hash;
      i := i + 1;
    }
    r := Ok(());
  }

  lemma SealExtends(sha: Digest, chain: seq<Envelope>, e: Envelope)
    ensures Verified(sha, chain + [e]) <==>
              Verified(sha, chain) && e.prevHash == Head(chain) && Verify(sha, e)
  {
    var longer := chain + [e];
    assert longer[..|chain|] == chain;
    forall i | 0 <= i < |chain| ensures LinkAt(sha, longer, i) <==> LinkAt(sha, chain, i) {
      assert longer[..i] == chain[..i];
    }
    assert LinkAt(sha, longer, |chain|) <==> e.prevHash == Head(chain) && Verify(sha, e);
    if Verified(sha, longer) {
      assert forall i | 0 <= i < |chain| :: LinkAt(sha, longer, i);
    }
  }

  // ---------------------------------------------------------------- what a hash without collisions gives

  ghost function Inputs(chain: seq<Envelope>): set<Bytes> {
    set e | e in chain :: Preimage(e.id, e.prevHash, e.json)
  }

  /** No two of these strings share a digest and none has the genesis value as its digest. */
  ghost predicate CollisionFree(sha: Digest, inputs: set<Bytes>) {
    && (forall x, y | x in inputs && y in inputs && sha(x) == sha(y) :: x == y)
    && (forall x | x in inputs :: sha(x) != GENESIS)
  }

  lemma SameHashSameEnvelope(sha: Digest, inputs: set<Bytes>, a: Envelope, b: Envelope)
    requires CollisionFree(sha, inputs) && Verify(sha, a) && Verify(sha, b) && a.hash == b.hash
    requires Preimage(a.id, a.prevHash, a.json) in inputs && Preimage(b.id, b.prevHash, b.json) in inputs
    ensures a == b
  {
    hide Preimage;
    PreimageInjective(a, b);
  }

  lemma DropLast(sha: Digest, chain: seq<Envelope>)
    requires Verified(sha, chain) && |chain| > 0
    ensures var k := |chain| - 1;
            && Verified(sha, chain[..k])
            && chain[k].prevHash == Head(chain[..k]) && Verify(sha, chain[k])
  {
    var k := |chain| - 1;
    assert chain == chain[..k] + [chain[k]];
    SealExtends(sha, chain[..k], chain[k]);
  }

  lemma HeadNotGenesis(sha: Digest, chain: seq<Envelope>, inputs: set<Bytes>)
    requires Verified(sha, chain) && Inputs(chain) <= inputs && CollisionFree(sha, inputs)
    ensures |chain| > 0 <==> Head(chain) != GENESIS
  {
    hide Preimage;
    if |chain| > 0 {
      DropLast(sha, chain);
      assert chain[|chain| - 1] in chain;
    }
  }

  /** Two verified chains with the same head are the same chain, link by link. */
  lemma {:induction false} HeadDeterminesChain(sha: Digest, a: seq<Envelope>, b: seq<Envelope>, inputs: set<Bytes>)
    requires Verified(sha, a) && Verified(sha, b) && Head(a) == Head(b)
    requires Inputs(a) <= inputs && Inputs(b) <= inputs && CollisionFree(sha, inputs)
    ensures a == b
    decreases |a|
  {
    hide Preimage, Verified;
    HeadNotGenesis(sha, a, inputs);
    HeadNotGenesis(sha, b, inputs);
    if |a| > 0 && |b| > 0 {
      var i, j := |a| - 1, |b| - 1;
      DropLast(sha, a);
      DropLast(sha, b);
      assert a[i] in a && b[j] in b;
      SameHashSameEnvelope(sha, inputs, a[i], b[j]);
      assert Inputs(a[..i]) <= Inputs(a) && Inputs(b[..j]) <= Inputs(b);
      HeadDeterminesChain(sha, a[..i], b[..j], inputs);
      assert a == a[..i] + [a[i]] && b == b[..j] + [b[j]];
    }
  }

  lemma PrefixVerified(sha: Digest, chain: seq<Envelope>, k: nat)
    requires Verified(sha, chain) && k <= |chain|
    ensures Verified(sha, chain[..k])
  {
    forall i | 0 <= i < k ensures LinkAt(sha, chain[..k], i) {
      assert LinkAt(sha, chain, i);
      assert chain[..k][..i] == chain[..i];
    }
  }

  // A link of a verified chain fits after the first k links only at position k.
  lemma LinkFitsOnce(sha: Digest, chain: seq<Envelope>, j: nat, k: nat)
    requires Verified(sha, chain) && CollisionFree(sha, Inputs(chain))
    requires j < |chain| && k <= |chain| && chain[j].prevHash == Head(chain[..k])
    ensures j == k
  {
    hide Preimage;
    assert LinkAt(sha, chain, j);
    PrefixVerified(sha, chain, j);
    PrefixVerified(sha, chain, k);
    HeadDeterminesChain(sha, chain[..j], chain[..k], Inputs(chain));
    assert |chain[..j]| == |chain[..k]|;
  }

  /** Links drawn from a verified chain, in any order and with any repetition, verify exactly when they are its
      prefix. */
  lemma {:induction false} DrawnLinksVerifyIffPrefix(sha: Digest, chain: seq<Envelope>, picks: seq<Envelope>)
    requires Verified(sha, chain) && CollisionFree(sha, Inputs(chain))
    requires forall e | e in picks :: e in chain
    ensures Verified(sha, picks) <==> picks <= chain
  {
    hide Preimage;
    var n := |picks|;
    if n > 0 {
      var front, last := picks[..n - 1], picks[n - 1];
      assert picks == front + [last];
      assert forall e | e in front :: e in picks;
      DrawnLinksVerifyIffPrefix(sha, chain, front);
      SealExtends(sha, front, last);
      assert last in picks;
      var j :| 0 <= j < |chain| && chain[j] == last;
      if Verified(sha, picks) {
        assert front == chain[..n - 1];
        LinkFitsOnce(sha, chain, j, n - 1);
      }
      if picks <= chain {
        assert picks == chain[..n];
        PrefixVerified(sha, chain, n);
      }
    }
  }
}
