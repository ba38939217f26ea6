/** Keys of the write-ahead log: a four-byte prefix and a zero-padded decimal sequence number. */
module WalKeys {
  import opened Wrappers
  import opened ByteStrings

  const SEQ_WIDTH: nat := 20
  const REC_PREFIX: Bytes := [114, 101, 99, 58]  // "rec:"
  const ACK_PREFIX: Bytes := [97, 99, 107, 58]   // "ack:"

  function Pow10(n: nat): nat {
    if n == 0 then 1 else 10 * Pow10(n - 1)
  }

  // The last `width` decimal digits of n, padded with zeros on the left.
  function Digits(n: nat, width: nat): (d: Bytes)
    ensures |d| == width
    decreases width
  {
    if width == 0 then [] else Digits(n / 10, width - 1) + [48 + n % 10]
  }

  predicate AllDigits(d: Bytes) {
    forall i | 0 <= i < |d| :: 48 <= d[i] <= 57
  }

  function DecimalValue(d: Bytes): nat
    requires AllDigits(d)
  {
    if |d| == 0 then 0 else 10 * DecimalValue(d[..|d| - 1]) + (d[|d| - 1] - 48)
  }

  // `str::parse::<u64>`: one optional plus sign, then digits, no overflow.
  function ParseU64(s: Bytes): Option<U64> {
    var t := if |s| > 0 && s[0] == 43 then s[1..] else s;
    if |t| > 0 && AllDigits(t) && DecimalValue(t) < TWO_64 then Some(DecimalValue(t)) else None
  }

  function RecKey(n: U64): Bytes {
    REC_PREFIX + Digits(n, SEQ_WIDTH)
  }

  function AckKey(n: U64): Bytes {
    ACK_PREFIX + Digits(n, SEQ_WIDTH)
  }

  predicate StartsWith(k: Bytes, prefix: Bytes) {
    |prefix| <= |k| && k[..|prefix|] == prefix
  }

  lemma {:induction false} DigitsRoundTrip(n: nat, width: nat)
    requires n < Pow10(width)
    ensures AllDigits(Digits(n, width))
    ensures DecimalValue(Digits(n, width)) == n
  {
    if width > 0 {
      DigitsRoundTrip(n / 10, width - 1);
      var d := Digits(n, width);
      assert d[..width - 1] == Digits(n / 10, width - 1);
    }
  }

  lemma {:induction false} DigitsOrder(m: nat, n: nat, width: nat)
    requires m < n < Pow10(width)
    ensures Less(Digits(m, width), Digits(n, width))
    decreases width
  {
    var p, q := Digits(m / 10, width - 1), Digits(n / 10, width - 1);
    if m / 10 < n / 10 {
      DigitsOrder(m / 10, n / 10, width - 1);
      LessExtends(p, q, [48 + m % 10], [48 + n % 10]);
    } else {
      LessAfterPrefix(p, [48 + m % 10], [48 + n % 10]);
    }
  }

  lemma SeqFitsWidth()
    ensures TWO_64 <= Pow10(SEQ_WIDTH)
  {
    assert Pow10(5) == 100_000;
    assert Pow10(10) == 10_000_000_000;
    assert Pow10(15) == 1_000_000_000_000_000;
    assert Pow10(20) == 100_000_000_000_000_000_000;
  }

  /** Byte order of record keys is numeric order of sequence numbers, both ways. */
  lemma RecKeyOrder(m: U64, n: U64)
    ensures Less(RecKey(m), RecKey(n)) <==> m < n
  {
    SeqFitsWidth();
    if m < n {
      DigitsOrder(m, n, SEQ_WIDTH);
      LessAfterPrefix(REC_PREFIX, Digits(m, SEQ_WIDTH), Digits(n, SEQ_WIDTH));
    } else {
      LessIrreflexive(RecKey(m));
      if n < m {
        DigitsOrder(n, m, SEQ_WIDTH);
        LessAfterPrefix(REC_PREFIX, Digits(n, SEQ_WIDTH), Digits(m, SEQ_WIDTH));
        if Less(RecKey(m), RecKey(n)) {
          LessTransitive(RecKey(m), RecKey(n), RecKey(m));
        }
      }
    }
  }

  /** A key written for a sequence number is read back as that number. */
  lemma KeyRoundTrip(n: U64)
    ensures |RecKey(n)| == 24 && |AckKey(n)| == 24
    ensures StartsWith(RecKey(n), REC_PREFIX) && !StartsWith(AckKey(n), REC_PREFIX)
    ensures ParseU64(RecKey(n)[4..]) == Some(n)
    ensures ParseU64(AckKey(n)[4..]) == Some(n)
  {
    SeqFitsWidth();
    DigitsRoundTrip(n, SEQ_WIDTH);
    assert RecKey(n)[4..] == Digits(n, SEQ_WIDTH) == AckKey(n)[4..];
    assert RecKey(n)[..4] == REC_PREFIX;
    assert AckKey(n)[0] == 97;
  }

  /** A plus sign in front is accepted, and nothing but digits behind it. */
  lemma PlusSignParses(n: U64, s: Bytes)
    ensures ParseU64([43] + Digits(n, SEQ_WIDTH)) == Some(n)
    ensures ParseU64([]) == None && ParseU64([43]) == None
    ensures (exists i | 1 <= i < |s| :: !(48 <= s[i] <= 57)) ==> ParseU64(s) == None
  {
    SeqFitsWidth();
    DigitsRoundTrip(n, SEQ_WIDTH);
    assert ([43] + Digits(n, SEQ_WIDTH))[1..] == Digits(n, SEQ_WIDTH);
    if i :| 1 <= i < |s| && !(48 <= s[i] <= 57) {
      assert s[1..][i - 1] == s[i];
    }
  }

  /** The codec is injective over both kinds of key and all u64 sequence numbers. */
  lemma KeysDistinct()
    ensures forall m: U64, n: U64 :: RecKey(m) == RecKey(n) <==> m == n
    ensures forall m: U64, n: U64 :: AckKey(m) == AckKey(n) <==> m == n
    ensures forall m: U64, n: U64 :: RecKey(m) != AckKey(n)
  {
    hide RecKey, AckKey, ParseU64, StartsWith;
    forall m: U64, n: U64
      ensures RecKey(m) == RecKey(n) <==> m == n
      ensures AckKey(m) == AckKey(n) <==> m == n
      ensures RecKey(m) != AckKey(n)
    {
      KeyRoundTrip(m);
      KeyRoundTrip(n);
    }
  }

  /** A scan that starts at a record key never meets an acknowledgement. */
  lemma AcksOutsideRecordScan(m: U64, n: U64)
    ensures Less(AckKey(m), RecKey(n))
  {}
}
