/** Result types shared by the models of the Amore crates. */
module Wrappers {
  datatype Option<+T> = None | Some(value: T)
  datatype Result<+T, +E> = Ok(value: T) | Err(error: E)
}

/** Byte strings in the order that sled keys and SQLite BINARY text are compared. */
module ByteStrings {
  type Byte = b: int | 0 <= b < 256
  type Bytes = seq<Byte>

  const TWO_64: nat := 0x1_0000_0000_0000_0000
  type U64 = n: nat | n < 0x1_0000_0000_0000_0000

  function Pow256(n: nat): nat {
    if n == 0 then 1 else 256 * Pow256(n - 1)
  }

  // Lexicographic order, a proper prefix being smaller.
  predicate Less(a: Bytes, b: Bytes) {
    if |b| == 0 then false
    else if |a| == 0 then true
    else a[0] < b[0] || (a[0] == b[0] && Less(a[1..], b[1..]))
  }

  lemma {:induction false} LessIrreflexive(a: Bytes)
    ensures !Less(a, a)
  {
    if |a| > 0 {
      LessIrreflexive(a[1..]);
    }
  }

  lemma {:induction false} LessTransitive(a: Bytes, b: Bytes, c: Bytes)
    requires Less(a, b) && Less(b, c)
    ensures Less(a, c)
  {
    if |a| > 0 && a[0] == b[0] && b[0] == c[0] {
      LessTransitive(a[1..], b[1..], c[1..]);
    }
  }

  lemma {:induction false} LessConnected(a: Bytes, b: Bytes)
    requires a != b
    ensures Less(a, b) || Less(b, a)
  {
    if |a| > 0 && |b| > 0 && a[0] == b[0] {
      assert a == [a[0]] + a[1..] && b == [b[0]] + b[1..];
      LessConnected(a[1..], b[1..]);
    }
  }

  lemma LessIsStrictOrder()
    ensures forall a: Bytes :: !Less(a, a)
    ensures forall a: Bytes, b: Bytes, c: Bytes :: Less(a, b) && Less(b, c) ==> Less(a, c)
    ensures forall a: Bytes, b: Bytes :: a != b ==> Less(a, b) || Less(b, a)
  {
    forall a: Bytes ensures !Less(a, a) {
      LessIrreflexive(a);
    }
    forall a: Bytes, b: Bytes, c: Bytes | Less(a, b) && Less(b, c) ensures Less(a, c) {
      LessTransitive(a, b, c);
    }
    forall a: Bytes, b: Bytes | a != b ensures Less(a, b) || Less(b, a) {
      LessConnected(a, b);
    }
  }

  lemma {:induction false} LessAfterPrefix(p: Bytes, a: Bytes, b: Bytes)
    ensures Less(p + a, p + b) <==> Less(a, b)
  {
    if |p| == 0 {
      assert p + a == a && p + b == b;
    } else {
      assert (p + a)[1..] == p[1..] + a && (p + b)[1..] == p[1..] + b;
      LessAfterPrefix(p[1..], a, b);
    }
  }

  lemma {:induction false} LessExtends(a: Bytes, b: Bytes, x: Bytes, y: Bytes)
    requires |a| == |b| && Less(a, b)
    ensures Less(a + x, b + y)
  {
    assert (a + x)[0] == a[0] && (b + y)[0] == b[0];
    if a[0] == b[0] {
      assert (a + x)[1..] == a[1..] + x && (b + y)[1..] == b[1..] + y;
      LessExtends(a[1..], b[1..], x, y);
    }
  }
}

/** Listing a finite set in a strict order. */
module Ordering {
  ghost predicate StrictOrderOn<T(!new)>(less: (T, T) -> bool, s: set<T>) {
    && (forall x | x in s :: !less(x, x))
    && (forall x, y | x in s && y in s && x != y :: less(x, y) || less(y, x))
    && (forall x, y, z | x in s && y in s && z in s && less(x, y) && less(y, z) :: less(x, z))
  }

  ghost predicate Ascending<T(!new)>(less: (T, T) -> bool, q: seq<T>) {
    forall i, j | 0 <= i < j < |q| :: less(q[i], q[j])
  }

  ghost predicate IsListing<T(!new)>(less: (T, T) -> bool, q: seq<T>, s: set<T>) {
    Ascending(less, q) && (forall x :: x in q <==> x in s)
  }

  predicate IsLeast<T(==, !new)>(less: (T, T) -> bool, m: T, s: set<T>) {
    m in s && forall x | x in s && x != m :: less(m, x)
  }

  lemma {:induction false} HasLeast<T(!new)>(less: (T, T) -> bool, s: set<T>)
    requires StrictOrderOn(less, s) && s != {}
    ensures exists m :: IsLeast(less, m, s)
    decreases s
  {
    var a :| a in s;
    if s == {a} {
      assert IsLeast(less, a, s);
    } else {
      HasLeast(less, s - {a});
      var m :| IsLeast(less, m, s - {a});
      if less(a, m) {
        forall x | x in s && x != a ensures less(a, x) {
          assert x in s - {a};
        }
        assert IsLeast(less, a, s);
      } else {
        assert IsLeast(less, m, s);
      }
    }
  }

  function Listing<T(==, !new)>(less: (T, T) -> bool, s: set<T>): (q: seq<T>)
    requires StrictOrderOn(less, s)
    ensures IsListing(less, q, s)
    decreases s
  {
    if s == {} then [] else
      HasLeast(less, s);
      var m :| IsLeast(less, m, s);
      [m] + Listing(less, s - {m})
  }

  lemma {:induction false} ListingUnique<T(!new)>(less: (T, T) -> bool, p: seq<T>, q: seq<T>, s: set<T>)
    requires StrictOrderOn(less, s) && IsListing(less, p, s) && IsListing(less, q, s)
    ensures p == q
    decreases |p|
  {
    assert |p| > 0 ==> p[0] in q;
    assert |q| > 0 ==> q[0] in p;
    if |p| > 0 {
      FirstIsLeast(less, p, q);
      ListingTail(less, p, s);
      ListingTail(less, q, s);
      ListingUnique(less, p[1..], q[1..], s - {p[0]});
      assert p == [p[0]] + p[1..] && q == [q[0]] + q[1..];
    }
  }

  lemma FirstIsLeast<T(!new)>(less: (T, T) -> bool, p: seq<T>, q: seq<T>)
    requires |p| > 0 && |q| > 0 && p[0] in q && q[0] in p
    requires Ascending(less, p) && Ascending(less, q) && !(less(p[0], q[0]) && less(q[0], p[0]))
    ensures p[0] == q[0]
  {}

  lemma ListingTail<T(!new)>(less: (T, T) -> bool, q: seq<T>, s: set<T>)
    requires StrictOrderOn(less, s) && IsListing(less, q, s) && |q| > 0
    ensures IsListing(less, q[1..], s - {q[0]})
  {}
}
