/** Opening the log with the machine key: the first success pins a fingerprint that every later one must match. */
module KeyPinning {
  import opened Wrappers
  import opened ByteStrings

  /** What the operating system's keyring answers. */
  datatype Keyring = NoEntry | Entry(hexKey: Bytes) | Unreachable

  datatype KeyError =
    | KeyUnavailable
    | KeyringEntryMissing
    | FingerprintMismatch(stored: Bytes, current: Bytes)

  /** The code that turns keys into text and back, and the digest behind the fingerprint. */
  datatype Codec = Codec(encode: Bytes -> Bytes, decode: Bytes -> Option<Bytes>, fingerprint: Bytes -> Bytes)

  /** How each fallible operation of one open ends; a crash is an operation that never returns. */
  datatype Faults = Faults(readOk: bool, setOk: bool, tmpOk: bool, renameOk: bool)

  /** What outlives a process: the keyring entry, the fingerprint file and its temporary sibling. */
  datatype Durable = Durable(keyring: Keyring, pinned: Option<Bytes>, tmp: Option<Bytes>)

  // ---------------------------------------------------------------- one open

  /** The temporary file is written first and renamed last, so the fingerprint file is old or new, never partial. */
  function WriteFingerprint(d: Durable, fp: Bytes, f: Faults): (Durable, Result<(), KeyError>) {
    if !f.tmpOk then (d, Err(KeyUnavailable))
    else if !f.renameOk then (d.(tmp := Some(fp)), Err(KeyUnavailable))
    else (d.(pinned := Some(fp), tmp := None), Ok(()))
  }

  function CheckOrInit(c: Codec, d: Durable, key: Option<Bytes>, f: Faults): (Durable, Result<Bytes, KeyError>) {
    match (d.pinned, key)
    case (None, Some(k)) =>
      var (d', written) := WriteFingerprint(d, c.fingerprint(k), f);
      (d', if written.Ok? then Ok(k) else Err(written.error))
    case (None, None) => (d, Err(KeyUnavailable))
    case (Some(_), None) => (d, Err(KeyringEntryMissing))
    case (Some(stored), Some(k)) =>
      if stored != c.fingerprint(k) then (d, Err(FingerprintMismatch(stored, c.fingerprint(k)))) else (d, Ok(k))
  }

  // The key at hand: the one in the keyring, or on a first run the generated one.
  function KeyAtHand(c: Codec, d: Durable, generated: Bytes): Option<Bytes> {
    match d.keyring
    case NoEntry => if d.pinned == None then Some(generated) else None
    case Entry(hexKey) => c.decode(hexKey)
    case Unreachable => None
  }

  /** An open succeeds exactly when there is a key at hand, it has the pinned fingerprint or its own can be pinned, and
      on a first run it can be stored. It leaves that fingerprint pinned and that key in the keyring. A failure changes
      no fingerprint and no entry: at most it leaves a first key stored and the temporary file behind. */
  function LoadOrCreate(c: Codec, d: Durable, generated: Bytes, f: Faults): (r: (Durable, Result<Bytes, KeyError>))
    ensures var key := KeyAtHand(c, d, generated);
            r.1.Ok? <==>
              && f.readOk && key.Some?
              && (d.keyring == NoEntry ==> f.setOk)
              && (if d.pinned.Some? then d.pinned.value == c.fingerprint(key.value) else f.tmpOk && f.renameOk)
    ensures r.1.Ok? ==>
              && Some(r.1.value) == KeyAtHand(c, d, generated)
              && r.0.pinned == Some(c.fingerprint(r.1.value))
              && r.0.keyring == (if d.keyring == NoEntry then Entry(c.encode(generated)) else d.keyring)
              && r.0.tmp == (if d.pinned.Some? then d.tmp else None)
    ensures r.1 == Err(KeyringEntryMissing) <==> f.readOk && d.keyring == NoEntry && d.pinned.Some?
    ensures r.1.Err? && r.1.error.FingerprintMismatch? <==>
              && f.readOk && d.keyring != NoEntry && KeyAtHand(c, d, generated).Some? && d.pinned.Some?
              && c.fingerprint(KeyAtHand(c, d, generated).value) != d.pinned.value
    ensures r.1.Err? ==> r.0.pinned == d.pinned
    ensures r.1.Err? && r.0 != d ==> d.pinned == None && f.readOk
    ensures r.1.Err? && r.0.tmp != d.tmp ==>
              && f.tmpOk && !f.renameOk && KeyAtHand(c, d, generated).Some?
              && r.0.tmp == Some(c.fingerprint(KeyAtHand(c, d, generated).value))
    ensures r.1.Err? ==>
              r.0.keyring == if f.readOk && d.keyring == NoEntry && d.pinned == None && f.setOk
                             then Entry(c.encode(generated)) else d.keyring
  {
    if !f.readOk then (d, Err(KeyUnavailable))
    else
      match d.keyring
      case NoEntry =>
        if d.pinned.Some? then CheckOrInit(c, d, None, f)
        else if !f.setOk then (d, Err(KeyUnavailable))
        else
          var (d', written) := WriteFingerprint(d.(keyring := Entry(c.encode(generated))), c.fingerprint(generated), f);
          (d', if written.Ok? then Ok(generated) else Err(written.error))
      case Entry(hexKey) =>
        (match c.decode(hexKey)
         case None => (d, Err(KeyUnavailable))
         case Some(k) => CheckOrInit(c, d, Some(k), f))
      case Unreachable => (d, Err(KeyUnavailable))
  }

  class KeyVault {
    const codec: Codec
    var keyring: Keyring
    var pinned: Option<Bytes>
    var tmp: Option<Bytes>

    function State(): Durable
      reads this
    {
      Durable(keyring, pinned, tmp)
    }

    constructor (codec: Codec, d: Durable)
      ensures this.codec == codec && State() == d
    {
      this.codec := codec;
      keyring, pinned, tmp := d.keyring, d.pinned, d.tmp;
    }

    // Write the temporary file, then rename it.
    method Pin(fp: Bytes, f: Faults) returns (r: Result<(), KeyError>)
      modifies this
      ensures (State(), r) == WriteFingerprint(old(State()), fp, f)
    {
      if !f.tmpOk {
        return Err(KeyUnavailable);
      }
      tmp := Some(fp);
      if !f.renameOk {
        return Err(KeyUnavailable);
      }
      pinned, tmp := tmp, None;
      r := Ok(());
    }

    /** Load the key or, on a first run, create it; then check the fingerprint or pin it. */
    method LoadOrCreateMachineKey(generated: Bytes, f: Faults) returns (r: Result<Bytes, KeyError>)
      modifies this
      ensures (State(), r) == LoadOrCreate(codec, old(State()), generated, f)
    {
      if !f.readOk {
        return Err(KeyUnavailable);
      }
      match keyring {
        case NoEntry =>
          if pinned.Some? {
            return Err(KeyringEntryMissing);
          }
          if !f.setOk {
            return Err(KeyUnavailable);
          }
          keyring := Entry(codec.encode(generated));
          var w := Pin(codec.fingerprint(generated), f);
          r := if w.Ok? then Ok(generated) else Err(w.error);
        case Entry(hexKey) =>
          var key := codec.decode(hexKey);
          if key.None? {
            return Err(KeyUnavailable);
          }
          var current := codec.fingerprint(key.value);
          if pinned.Some? {
            r := if pinned.value != current then Err(FingerprintMismatch(pinned.value, current)) else Ok(key.value);
          } else {
            var w := Pin(current, f);
            r := if w.Ok? then Ok(key.value) else Err(w.error);
          }
        case Unreachable => r := Err(KeyUnavailable);
      }
    }
  }

  // ---------------------------------------------------------------- runs

  /** An attempt to open with its outcomes, or somebody changing the keyring from outside. */
  datatype Event = Open(generated: Bytes, faults: Faults) | EditKeyring(to: Keyring)

  function Step(c: Codec, d: Durable, e: Event): Durable {
    match e
    case Open(generated, f) => LoadOrCreate(c, d, generated, f).0
    case EditKeyring(to) => d.(keyring := to)
  }

  function OpenedKey(c: Codec, d: Durable, e: Event): Option<Bytes> {
    match e
    case Open(generated, f) =>
      (match LoadOrCreate(c, d, generated, f).1 case Ok(k) => Some(k) case Err(_) => None)
    case EditKeyring(_) => None
  }

  ghost predicate Run(c: Codec, states: seq<Durable>, events: seq<Event>) {
    && |states| == |events| + 1
    && forall i | 0 <= i < |events| :: states[i + 1] == Step(c, states[i], events[i])
  }

  // The key that the i-th event opens the log with, if it does.
  function KeyAt(c: Codec, states: seq<Durable>, events: seq<Event>, i: nat): Option<Bytes>
    requires i < |events| && |states| == |events| + 1
  {
    OpenedKey(c, states[i], events[i])
  }

  /** One step never changes a fingerprint that is there, and a success leaves its own behind. */
  lemma StepPins(c: Codec, d: Durable, e: Event)
    ensures d.pinned.Some? ==> Step(c, d, e).pinned == d.pinned
    ensures OpenedKey(c, d, e).Some? ==> Step(c, d, e).pinned == Some(c.fingerprint(OpenedKey(c, d, e).value))
  {}

  lemma {:induction false} PinnedStays(c: Codec, states: seq<Durable>, events: seq<Event>, i: nat, j: nat)
    requires Run(c, states, events) && i <= j < |states| && states[i].pinned.Some?
    ensures states[j].pinned == states[i].pinned
    decreases j
  {
    if i < j {
      PinnedStays(c, states, events, i, j - 1);
      StepPins(c, states[j - 1], events[j - 1]);
    }
  }

  /** Whatever happens to the keyring in between, all successful opens use keys with one fingerprint. */
  lemma OneFingerprint(c: Codec, states: seq<Durable>, events: seq<Event>, i: nat, j: nat)
    requires Run(c, states, events) && i <= j < |events|
    requires KeyAt(c, states, events, i).Some? && KeyAt(c, states, events, j).Some?
    ensures c.fingerprint(KeyAt(c, states, events, i).value) == c.fingerprint(KeyAt(c, states, events, j).value)
  {
    StepPins(c, states[i], events[i]);
    PinnedStays(c, states, events, i + 1, j + 1);
    StepPins(c, states[j], events[j]);
  }

  /** So a tag made under one successful open still verifies under any later one, unless fingerprints collide. */
  lemma TagsSurviveReopening(c: Codec, states: seq<Durable>, events: seq<Event>, i: nat, j: nat,
                             mac: (Bytes, Bytes) -> Bytes, text: Bytes)
    requires Run(c, states, events) && i <= j < |events|
    requires KeyAt(c, states, events, i).Some? && KeyAt(c, states, events, j).Some?
    requires var k, l := KeyAt(c, states, events, i).value, KeyAt(c, states, events, j).value;
             c.fingerprint(k) == c.fingerprint(l) ==> k == l
    ensures mac(KeyAt(c, states, events, i).value, text) == mac(KeyAt(c, states, events, j).value, text)
  {
    OneFingerprint(c, states, events, i, j);
  }

  /** An open cut between the keyring write and the fingerprint write is made good by the next one, with the
      same key. */
  lemma CutFirstOpenRecovers(c: Codec, d: Durable, key: Bytes, other: Bytes, f: Faults, g: Faults)
    requires c.decode(c.encode(key)) == Some(key)
    requires d.keyring == NoEntry && d.pinned == None
    requires f.readOk && f.setOk && !(f.tmpOk && f.renameOk)
    requires g.readOk && g.tmpOk && g.renameOk
    ensures var (cut, first) := LoadOrCreate(c, d, key, f);
            var (end, second) := LoadOrCreate(c, cut, other, g);
            first.Err? && second == Ok(key) && end.pinned == Some(c.fingerprint(key))
  {}

  /** Once pinned, an open succeeds exactly when the keyring holds a key with that fingerprint. */
  lemma OpensIffKeyMatches(c: Codec, d: Durable, generated: Bytes, f: Faults)
    requires d.pinned.Some? && f.readOk
    ensures LoadOrCreate(c, d, generated, f).1.Ok? <==>
              d.keyring.Entry? && c.decode(d.keyring.hexKey).Some?
              && c.fingerprint(c.decode(d.keyring.hexKey).value) == d.pinned.value
    ensures LoadOrCreate(c, d, generated, f).0 == d
  {}
}
