/** Finding the first JSON object in prose: a byte scan that counts braces outside strings. */
module JsonScan {
  import opened Wrappers
  import opened ByteStrings

  const QUOTE: Byte := 34
  const BACKSLASH: Byte := 92
  const OPEN_BRACE: Byte := 123
  const CLOSE_BRACE: Byte := 125
  const TWO_32: nat := 0x1_0000_0000

  // ---------------------------------------------------------------- what a prefix leaves open

  datatype Scan = Scan(depth: int, inString: bool, escaped: bool)

  const START: Scan := Scan(0, false, false)

  function Feed(s: Scan, b: Byte): Scan {
    if s.inString then
      if s.escaped then s.(escaped := false)
      else if b == BACKSLASH then s.(escaped := true)
      else if b == QUOTE then s.(inString := false)
      else s
    else if b == QUOTE then s.(inString := true)
    else if b == OPEN_BRACE then s.(depth := s.depth + 1)
    else if b == CLOSE_BRACE then s.(depth := s.depth - 1)
    else s
  }

  function FeedAll(s: Scan, t: Bytes): Scan {
    if |t| == 0 then s else Feed(FeedAll(s, t[..|t| - 1]), t[|t| - 1])
  }

  function Depth(t: Bytes): int {
    FeedAll(START, t).depth
  }

  // As many closing as opening braces outside strings.
  predicate Balanced(t: Bytes) {
    Depth(t) == 0
  }

  // A closing brace outside a string brings a 32-bit depth counter to zero.
  predicate Closes(t: Bytes) {
    && |t| > 0 && t[|t| - 1] == CLOSE_BRACE
    && !FeedAll(START, t[..|t| - 1]).inString
    && Depth(t) % TWO_32 == 0
  }

  predicate FirstBrace(s: Bytes, start: nat) {
    start < |s| && s[start] == OPEN_BRACE && forall k | 0 <= k < start :: s[k] != OPEN_BRACE
  }

  predicate FirstClose(s: Bytes, start: nat, end: nat) {
    start < end <= |s| && Closes(s[start..end]) && forall k | start < k < end :: !Closes(s[start..k])
  }

  /** From the first opening brace to the first closing one that brings the counter to zero, if both exist. */
  ghost function Extract(s: Bytes): Option<Bytes> {
    if exists p: nat, e: nat :: FirstBrace(s, p) && FirstClose(s, p, e) then
      var p: nat, e: nat :| FirstBrace(s, p) && FirstClose(s, p, e);
      Some(s[p..e])
    else None
  }

  lemma ExtractIs(s: Bytes, p: nat, e: nat)
    requires FirstBrace(s, p) && FirstClose(s, p, e)
    ensures Extract(s) == Some(s[p..e])
  {}

  type I32 = n: int | -0x8000_0000 <= n < 0x8000_0000

  // The 32-bit signed counter of the scan wraps at either end.
  function Increment(n: I32): I32 {
    if n == 0x7FFF_FFFF then -0x8000_0000 else n + 1
  }

  function Decrement(n: I32): I32 {
    if n == -0x8000_0000 then 0x7FFF_FFFF else n - 1
  }

  lemma ZeroIffWholeLaps(n: I32, laps: int)
    ensures (n + laps * TWO_32) % TWO_32 == 0 <==> n == 0
  {}

  lemma FeedOne(s: Bytes, start: nat, i: nat)
    requires start <= i < |s|
    ensures FeedAll(START, s[start..i + 1]) == Feed(FeedAll(START, s[start..i]), s[i])
  {
    assert s[start..i + 1][..i - start] == s[start..i];
  }

  /** One pass over the bytes finds that slice or reports that there is none. */
  method ExtractFirstJsonObject(s: Bytes) returns (r: Option<Bytes>)
    ensures r == Extract(s)
  {
    var start := 0;
    while start < |s| && s[start] != OPEN_BRACE
      invariant 0 <= start <= |s| && forall k | 0 <= k < start :: s[k] != OPEN_BRACE
    {
      start := start + 1;
    }
    if start == |s| {
      return None;
    }
    hide Closes, Extract;
    var depth: I32 := 0;
    ghost var laps := 0;
    var inStr, esc := false, false;
    var i := start;
    while i < |s|
      invariant start <= i <= |s|
      invariant FeedAll(START, s[start..i]) == Scan(depth + laps * TWO_32, inStr, esc)
      invariant forall k | start < k <= i :: !Closes(s[start..k])
    {
      FeedOne(s, start, i);
      ClosesAt(s, start, i);
      var c := s[i];
      if inStr {
        if esc {
          esc := false;
        } else if c == BACKSLASH {
          esc := true;
        } else if c == QUOTE {
          inStr := false;
        }
      } else if c == QUOTE {
        inStr := true;
      } else if c == OPEN_BRACE {
        laps := if depth == 0x7FFF_FFFF then laps + 1 else laps;
        depth := Increment(depth);
      } else if c == CLOSE_BRACE {
        laps := if depth == -0x8000_0000 then laps - 1 else laps;
        depth := Decrement(depth);
        ZeroIffWholeLaps(depth, laps);
        if depth == 0 {
          ExtractIs(s, start, i + 1);
          return Some(s[start..i + 1]);
        }
      }
      i := i + 1;
    }
    ExtractNothing(s, start);
    r := None;
  }

  lemma ClosesAt(s: Bytes, start: nat, i: nat)
    requires start <= i < |s|
    ensures var x := FeedAll(START, s[start..i]);
            Closes(s[start..i + 1]) <==> s[i] == CLOSE_BRACE && !x.inString && (x.depth - 1) % TWO_32 == 0
  {
    FeedOne(s, start, i);
    assert s[start..i + 1][..i - start] == s[start..i];
  }

  lemma ExtractNothing(s: Bytes, p: nat)
    requires FirstBrace(s, p) && forall k | p < k <= |s| :: !Closes(s[p..k])
    ensures Extract(s) == None
  {}

  // ---------------------------------------------------------------- shortest balanced slice

  // Never more than 2^32 braces open: what the 32-bit counter can tell from fewer.
  predicate Shallow(t: Bytes) {
    forall k | 1 <= k <= |t| :: Depth(t[..k]) <= TWO_32
  }

  // Until a nonempty prefix is balanced, every nonempty prefix leaves at least one brace open.
  lemma {:induction false} OpenUntilBalanced(t: Bytes, n: nat)
    requires 1 <= n <= |t| && t[0] == OPEN_BRACE
    requires forall k | 1 <= k <= n :: !Balanced(t[..k])
    ensures Depth(t[..n]) >= 1
  {
    var u := t[..n];
    assert u[..n - 1] == t[..n - 1];
    if n == 1 {
      assert FeedAll(START, u[..0]) == START;
    } else {
      OpenUntilBalanced(t, n - 1);
      assert !Balanced(t[..n]);
    }
  }

  // The first balanced prefix ends with a closing brace outside strings.
  lemma BalancedCloses(t: Bytes, n: nat)
    requires 1 <= n <= |t| && t[0] == OPEN_BRACE
    requires forall k | 1 <= k < n :: !Balanced(t[..k])
    ensures Balanced(t[..n]) ==> Closes(t[..n])
    ensures Depth(t[..n - 1]) <= TWO_32 && Closes(t[..n]) ==> Balanced(t[..n])
  {
    var u := t[..n];
    assert u[..n - 1] == t[..n - 1];
    if n == 1 {
      assert FeedAll(START, u[..0]) == START;
    } else {
      OpenUntilBalanced(t, n - 1);
    }
  }

  lemma ShallowPrefix(t: Bytes, m: nat, n: nat)
    requires m <= n <= |t| && Shallow(t[..n])
    ensures Depth(t[..m]) <= TWO_32 && Shallow(t[..m])
  {
    assert forall k | 1 <= k <= n :: t[..n][..k] == t[..k];
    assert forall k | 1 <= k <= m :: t[..m][..k] == t[..k];
    assert t[..0] == [];
  }

  lemma {:induction false} NoneClosesIffNoneBalanced(t: Bytes, n: nat)
    requires n <= |t| && |t| > 0 && t[0] == OPEN_BRACE && Shallow(t[..n])
    ensures (forall k | 1 <= k <= n :: !Closes(t[..k])) <==> (forall k | 1 <= k <= n :: !Balanced(t[..k]))
  {
    hide Closes, Balanced, Shallow;
    if n > 0 {
      ShallowPrefix(t, n - 1, n);
      NoneClosesIffNoneBalanced(t, n - 1);
      if forall k | 1 <= k <= n - 1 :: !Balanced(t[..k]) {
        BalancedCloses(t, n);
      }
    }
  }

  lemma FirstBalancedIffFirstClose(t: Bytes, n: nat)
    requires 1 <= n <= |t| && t[0] == OPEN_BRACE && Shallow(t[..n])
    ensures Closes(t[..n]) && (forall k | 1 <= k < n :: !Closes(t[..k])) <==>
            Balanced(t[..n]) && (forall k | 1 <= k < n :: !Balanced(t[..k]))
  {
    hide Closes, Balanced, Shallow;
    ShallowPrefix(t, n - 1, n);
    NoneClosesIffNoneBalanced(t, n - 1);
    if forall k | 1 <= k < n :: !Balanced(t[..k]) {
      BalancedCloses(t, n);
    }
  }

  // On the way down from more than 2^32 open braces the counter comes round to zero.
  lemma {:induction false} ComesRound(t: Bytes, m: nat, n: nat) returns (j: nat)
    requires m <= n <= |t| && Depth(t[..m]) > TWO_32 >= Depth(t[..n])
    ensures m < j <= n && Closes(t[..j]) && Depth(t[..j]) == TWO_32
  {
    assert t[..n][..n - 1] == t[..n - 1];
    if Depth(t[..n - 1]) <= TWO_32 {
      j := ComesRound(t, m, n - 1);
    } else {
      j := n;
    }
  }

  lemma DeepClosesEarly(t: Bytes, n: nat)
    requires 1 <= n <= |t| && Balanced(t[..n]) && !Shallow(t[..n])
    ensures exists j :: 1 <= j < n && Closes(t[..j])
  {
    var m :| 1 <= m <= n && Depth(t[..n][..m]) > TWO_32;
    assert t[..n][..m] == t[..m];
    var j := ComesRound(t, m, n);
  }

  predicate FirstBalanced(s: Bytes, start: nat, end: nat) {
    start < end <= |s| && Balanced(s[start..end]) && forall k | start < k < end :: !Balanced(s[start..k])
  }

  /** From the first brace on, the shortest balanced slice is returned exactly when it never has more than 2^32
      braces open, and no other slice of that kind is returned. */
  lemma ReturnsShortestBalanced(s: Bytes, start: nat, end: nat)
    requires FirstBrace(s, start) && start < end <= |s|
    ensures Shallow(s[start..end]) ==> (FirstClose(s, start, end) <==> FirstBalanced(s, start, end))
    ensures FirstBalanced(s, start, end) ==> (FirstClose(s, start, end) <==> Shallow(s[start..end]))
  {
    hide Closes, Balanced, Shallow;
    var t, n := s[start..], end - start;
    assert forall k | start < k <= end :: s[start..k] == t[..k - start];
    assert forall k | 1 <= k <= n :: t[..k] == s[start..start + k];
    if Shallow(t[..n]) {
      FirstBalancedIffFirstClose(t, n);
    } else if Balanced(t[..n]) {
      DeepClosesEarly(t, n);
    }
  }

  // ---------------------------------------------------------------- JSON texts

  /** A text of the JSON grammar of RFC 8259: the value with the white space at each place and the form of each
      character of its strings. */
  datatype Json =
    | Null
    | Bool(value: bool)
    | Number(digits: Bytes)
    | Text(pieces: seq<Piece>)
    | Array(open: Bytes, items: seq<Item>)
    | Object(open: Bytes, members: seq<Member>)
  datatype Item = Item(before: Bytes, value: Json, behind: Bytes)
  datatype Member = Member(before: Bytes, key: seq<Piece>, colon: Bytes, afterColon: Bytes, value: Json, behind: Bytes)

  /** A character of a string as it stands, after a backslash, or as four hex digits. */
  datatype Piece = Plain(b: Byte) | Escaped(b: Byte) | Unicode(hex: Bytes)

  // The two-character escapes of section 7 of RFC 8259: quote, backslash, slash, and b, f, n, r, t.
  const ESCAPES: set<Byte> := {34, 92, 47, 98, 102, 110, 114, 116}

  predicate HexDigit(b: Byte) {
    48 <= b <= 57 || 65 <= b <= 70 || 97 <= b <= 102
  }

  predicate LegalPiece(p: Piece) {
    match p
    case Plain(b) => b >= 32 && b != QUOTE && b != BACKSLASH
    case Escaped(b) => b in ESCAPES
    case Unicode(hex) => |hex| == 4 && forall b | b in hex :: HexDigit(b)
  }

  predicate Legal(pieces: seq<Piece>) {
    forall p | p in pieces :: LegalPiece(p)
  }

  function PrintPiece(p: Piece): Bytes {
    match p
    case Plain(b) => [b]
    case Escaped(b) => [BACKSLASH, b]
    case Unicode(hex) => [BACKSLASH, 117] + hex
  }

  function PrintPieces(pieces: seq<Piece>): Bytes {
    if |pieces| == 0 then [] else PrintPieces(pieces[..|pieces| - 1]) + PrintPiece(pieces[|pieces| - 1])
  }

  function PrintText(pieces: seq<Piece>): Bytes {
    [QUOTE] + PrintPieces(pieces) + [QUOTE]
  }

  // Numbers hold digits, signs, a point and an exponent letter.
  predicate NumberByte(b: Byte) {
    48 <= b <= 57 || b in [43, 45, 46, 69, 101]
  }

  predicate WhiteSpace(ws: Bytes) {
    forall b | b in ws :: b in [9, 10, 13, 32]
  }

  predicate WellFormed(j: Json) {
    match j
    case Number(digits) => forall b | b in digits :: NumberByte(b)
    case Text(pieces) => Legal(pieces)
    case Array(open, items) => WhiteSpace(open) && forall i | 0 <= i < |items| :: WellFormedItem(items[i])
    case Object(open, members) => WhiteSpace(open) && forall i | 0 <= i < |members| :: WellFormedMember(members[i])
    case _ => true
  }

  predicate WellFormedItem(t: Item) {
    WhiteSpace(t.before) && WellFormed(t.value) && WhiteSpace(t.behind)
  }

  predicate WellFormedMember(t: Member) {
    && WhiteSpace(t.before) && Legal(t.key) && WhiteSpace(t.colon) && WhiteSpace(t.afterColon)
    && WellFormed(t.value) && WhiteSpace(t.behind)
  }

  function Print(j: Json): Bytes {
    match j
    case Null => [110, 117, 108, 108]
    case Bool(b) => if b then [116, 114, 117, 101] else [102, 97, 108, 115, 101]
    case Number(digits) => digits
    case Text(pieces) => PrintText(pieces)
    case Array(open, items) => [91] + open + PrintItems(items) + [93]
    case Object(open, members) => [OPEN_BRACE] + open + PrintMembers(members) + [CLOSE_BRACE]
  }

  function PrintItems(items: seq<Item>): Bytes {
    if |items| == 0 then []
    else
      var last := items[|items| - 1];
      PrintItems(items[..|items| - 1]) + (Separator(|items|) + last.before) + Print(last.value) + last.behind
  }

  function PrintMembers(members: seq<Member>): Bytes {
    if |members| == 0 then []
    else
      var last := members[|members| - 1];
      PrintMembers(members[..|members| - 1]) + PrintKey(|members|, last) + Print(last.value) + last.behind
  }

  // In front of the n-th entry.
  function Separator(n: nat): Bytes {
    if n == 1 then [] else [44]
  }

  function PrintKey(n: nat, t: Member): Bytes {
    Separator(n) + t.before + PrintText(t.key) + (t.colon + [58] + t.afterColon)
  }

  /** How many braces deep a text goes. */
  function Nesting(j: Json): nat {
    match j
    case Array(_, items) => NestingOfItems(items)
    case Object(_, members) => 1 + NestingOfMembers(members)
    case _ => 0
  }

  function NestingOfItems(items: seq<Item>): nat {
    if |items| == 0 then 0 else Greater(NestingOfItems(items[..|items| - 1]), Nesting(items[|items| - 1].value))
  }

  function NestingOfMembers(members: seq<Member>): nat {
    if |members| == 0 then 0
    else Greater(NestingOfMembers(members[..|members| - 1]), Nesting(members[|members| - 1].value))
  }

  function Greater(a: nat, b: nat): nat {
    if a < b then b else a
  }

  // ---------------------------------------------------------------- what a printed value does to the scan

  function Outside(d: int): Scan {
    Scan(d, false, false)
  }

  // Fed in state s, t ends in s again and the depth stays between the depth of s and `high`.
  ghost predicate Keeps(s: Scan, t: Bytes, high: int) {
    && FeedAll(s, t) == s
    && forall k | 0 <= k <= |t| :: s.depth <= FeedAll(s, t[..k]).depth <= high
  }

  lemma {:induction false} FeedConcat(s: Scan, a: Bytes, b: Bytes)
    ensures FeedAll(s, a + b) == FeedAll(FeedAll(s, a), b)
  {
    if |b| == 0 {
      assert a + b == a;
    } else {
      assert (a + b)[..|a + b| - 1] == a + b[..|b| - 1];
      FeedConcat(s, a, b[..|b| - 1]);
    }
  }

  lemma KeepsConcat(s: Scan, a: Bytes, b: Bytes, high: int)
    requires Keeps(s, a, high) && Keeps(s, b, high)
    ensures Keeps(s, a + b, high)
  {
    FeedConcat(s, a, b);
    forall k | 0 <= k <= |a + b| ensures s.depth <= FeedAll(s, (a + b)[..k]).depth <= high {
      if k <= |a| {
        assert (a + b)[..k] == a[..k];
      } else {
        assert (a + b)[..k] == a + b[..k - |a|];
        FeedConcat(s, a, b[..k - |a|]);
      }
    }
  }

  lemma KeepsNothing(s: Scan, high: int)
    requires high >= s.depth
    ensures Keeps(s, [], high)
  {}

  lemma KeepsByte(s: Scan, t: Bytes, b: Byte, high: int)
    requires Keeps(s, t, high) && Feed(s, b) == s
    ensures Keeps(s, t + [b], high)
  {
    assert t[..|t|] == t;
    assert [b][..0] == [] && [b][..1] == [b];
    assert FeedAll(s, []) == s && FeedAll(s, [b]) == s;
    KeepsConcat(s, t, [b], high);
  }

  // An opening byte, a text that keeps the state it leads to, and a byte that leads back.
  lemma KeepsEnclosed(s: Scan, open: Byte, body: Bytes, close: Byte, inner: Scan, high: int)
    requires Feed(s, open) == inner && Keeps(inner, body, high) && Feed(inner, close) == s
    requires inner.depth >= s.depth
    ensures Keeps(s, [open] + body + [close], high)
    ensures forall k | 1 <= k <= |body| + 1 :: FeedAll(s, ([open] + body + [close])[..k]).depth >= inner.depth
  {
    var t := [open] + body + [close];
    assert [open][..0] == [] && FeedAll(s, [open]) == inner;
    forall k | 1 <= k <= |body| + 1 ensures inner.depth <= FeedAll(s, t[..k]).depth <= high {
      assert t[..k] == [open] + body[..k - 1];
      FeedConcat(s, [open], body[..k - 1]);
    }
    assert body[..|body|] == body;
    FeedConcat(s, [open], body);
    assert t[..|t| - 1] == [open] + body;
    assert t[..|t|] == t && t[..0] == [];
  }

  // Bytes that leave a scan outside strings where it is.
  predicate Inert(t: Bytes) {
    forall b | b in t :: b != QUOTE && b != OPEN_BRACE && b != CLOSE_BRACE
  }

  lemma {:induction false} InertKept(t: Bytes, d: int, h: int)
    requires h >= d
    requires Inert(t)
    ensures Keeps(Outside(d), t, h)
  {
    if |t| > 0 {
      var front := t[..|t| - 1];
      assert forall b | b in front :: b in t;
      assert t[|t| - 1] in t;
      InertKept(front, d, h);
      KeepsByte(Outside(d), front, t[|t| - 1], h);
      assert t == front + [t[|t| - 1]];
    } else {
      KeepsNothing(Outside(d), h);
    }
  }

  // ---------------------------------------------------------------- strings

  function Inside(d: int): Scan {
    Scan(d, true, false)
  }

  lemma {:induction false} PlainKept(t: Bytes, d: int, h: int)
    requires h >= d
    requires forall b | b in t :: b != QUOTE && b != BACKSLASH
    ensures Keeps(Inside(d), t, h)
  {
    if |t| > 0 {
      var front := t[..|t| - 1];
      assert forall b | b in front :: b in t;
      assert t[|t| - 1] in t;
      PlainKept(front, d, h);
      KeepsByte(Inside(d), front, t[|t| - 1], h);
      assert t == front + [t[|t| - 1]];
    } else {
      KeepsNothing(Inside(d), h);
    }
  }

  lemma PairKept(b: Byte, d: int, h: int)
    requires h >= d
    ensures Keeps(Inside(d), [BACKSLASH, b], h)
  {
    var s, t := Inside(d), [BACKSLASH, b];
    assert t[..0] == [] && t[..1] == [BACKSLASH] && t[..2] == t && [BACKSLASH][..0] == [];
    assert FeedAll(s, [BACKSLASH]) == s.(escaped := true);
    assert FeedAll(s, t) == s;
  }

  lemma PieceKept(p: Piece, d: int, h: int)
    requires LegalPiece(p) && h >= d
    ensures Keeps(Inside(d), PrintPiece(p), h)
  {
    hide Keeps;
    match p
    case Plain(b) => PlainKept([b], d, h);
    case Escaped(b) => PairKept(b, d, h);
    case Unicode(hex) =>
      PairKept(117, d, h);
      PlainKept(hex, d, h);
      KeepsConcat(Inside(d), [BACKSLASH, 117], hex, h);
  }

  lemma {:induction false} PiecesKept(pieces: seq<Piece>, d: int, h: int)
    requires Legal(pieces) && h >= d
    ensures Keeps(Inside(d), PrintPieces(pieces), h)
  {
    hide Keeps, PrintPiece, LegalPiece;
    if |pieces| > 0 {
      var front, last := pieces[..|pieces| - 1], pieces[|pieces| - 1];
      assert last in pieces && forall p | p in front :: p in pieces;
      PiecesKept(front, d, h);
      PieceKept(last, d, h);
      KeepsConcat(Inside(d), PrintPieces(front), PrintPiece(last), h);
    } else {
      KeepsNothing(Inside(d), h);
    }
  }

  lemma TextKept(pieces: seq<Piece>, d: int, h: int)
    requires Legal(pieces) && h >= d
    ensures Keeps(Outside(d), PrintText(pieces), h)
  {
    PiecesKept(pieces, d, h);
    KeepsEnclosed(Outside(d), QUOTE, PrintPieces(pieces), QUOTE, Inside(d), h);
  }

  // ---------------------------------------------------------------- values

  lemma LeadKept(n: nat, ws: Bytes, d: int, h: int)
    requires WhiteSpace(ws) && h >= d
    ensures Keeps(Outside(d), Separator(n) + ws, h)
  {
    InertKept(Separator(n) + ws, d, h);
  }

  lemma ColonKept(before: Bytes, behind: Bytes, d: int, h: int)
    requires WhiteSpace(before) && WhiteSpace(behind) && h >= d
    ensures Keeps(Outside(d), before + [58] + behind, h)
  {
    InertKept(before + [58] + behind, d, h);
  }

  lemma KeyKept(n: nat, t: Member, d: int, h: int)
    requires WhiteSpace(t.before) && Legal(t.key) && WhiteSpace(t.colon) && WhiteSpace(t.afterColon) && h >= d
    ensures Keeps(Outside(d), PrintKey(n, t), h)
  {
    hide Keeps, PrintText, Separator, Legal, WhiteSpace;
    var s := Outside(d);
    LeadKept(n, t.before, d, h);
    TextKept(t.key, d, h);
    ColonKept(t.colon, t.afterColon, d, h);
    KeepsConcat(s, Separator(n) + t.before, PrintText(t.key), h);
    KeepsConcat(s, Separator(n) + t.before + PrintText(t.key), t.colon + [58] + t.afterColon, h);
  }

  lemma SpaceKept(ws: Bytes, d: int, h: int)
    requires WhiteSpace(ws) && h >= d
    ensures Keeps(Outside(d), ws, h)
  {
    InertKept(ws, d, h);
  }

  lemma {:induction false} PrintKept(j: Json, d: int, h: int)
    requires WellFormed(j) && h >= d + Nesting(j)
    ensures Keeps(Outside(d), Print(j), h)
    decreases j, 1, 0
  {
    hide Keeps;
    var s := Outside(d);
    match j
    case Null => InertKept(Print(j), d, h);
    case Bool(_) => InertKept(Print(j), d, h);
    case Number(_) => InertKept(Print(j), d, h);
    case Text(pieces) => TextKept(pieces, d, h);
    case Array(open, items) =>
      ItemsKept(items, d, h);
      BracketKept(open, d, h);
      InertKept([93], d, h);
      KeepsConcat(s, [91] + open, PrintItems(items), h);
      KeepsConcat(s, [91] + open + PrintItems(items), [93], h);
    case Object(open, members) => ObjectKept(open, members, d, h);
  }

  lemma BracketKept(ws: Bytes, d: int, h: int)
    requires WhiteSpace(ws) && h >= d
    ensures Keeps(Outside(d), [91] + ws, h)
  {
    InertKept([91] + ws, d, h);
  }

  lemma {:induction false} ItemsKept(items: seq<Item>, d: int, h: int)
    requires h >= d + NestingOfItems(items) && forall i | 0 <= i < |items| :: WellFormedItem(items[i])
    ensures Keeps(Outside(d), PrintItems(items), h)
    decreases items, 0, |items|
  {
    hide Keeps, Print, Separator, Nesting, WhiteSpace;
    var s := Outside(d);
    if |items| == 0 {
      KeepsNothing(s, h);
    } else {
      var front, last := items[..|items| - 1], items[|items| - 1];
      assert WellFormedItem(last);
      ItemsKept(front, d, h);
      LeadKept(|items|, last.before, d, h);
      PrintKept(last.value, d, h);
      SpaceKept(last.behind, d, h);
      var lead, value := Separator(|items|) + last.before, Print(last.value);
      KeepsConcat(s, PrintItems(front), lead, h);
      KeepsConcat(s, PrintItems(front) + lead, value, h);
      KeepsConcat(s, PrintItems(front) + lead + value, last.behind, h);
    }
  }

  lemma {:induction false} MembersKept(members: seq<Member>, d: int, h: int)
    requires h >= d + NestingOfMembers(members) && forall i | 0 <= i < |members| :: WellFormedMember(members[i])
    ensures Keeps(Outside(d), PrintMembers(members), h)
    decreases members, 0, |members|
  {
    hide Keeps, Print, PrintKey, Nesting, WhiteSpace, Legal;
    var s := Outside(d);
    if |members| == 0 {
      KeepsNothing(s, h);
    } else {
      var front, last := members[..|members| - 1], members[|members| - 1];
      assert WellFormedMember(last);
      MembersKept(front, d, h);
      KeyKept(|members|, last, d, h);
      PrintKept(last.value, d, h);
      SpaceKept(last.behind, d, h);
      var key, value := PrintKey(|members|, last), Print(last.value);
      KeepsConcat(s, PrintMembers(front), key, h);
      KeepsConcat(s, PrintMembers(front) + key, value, h);
      KeepsConcat(s, PrintMembers(front) + key + value, last.behind, h);
    }
  }

  lemma {:induction false} ObjectKept(open: Bytes, members: seq<Member>, d: int, h: int)
    requires WellFormed(Object(open, members)) && h >= d + Nesting(Object(open, members))
    ensures Keeps(Outside(d), Print(Object(open, members)), h)
    ensures var t := Print(Object(open, members));
            forall k | 1 <= k < |t| :: FeedAll(Outside(d), t[..k]).depth >= d + 1
    decreases members, 1, 0
  {
    hide Keeps, FeedAll, WellFormedMember, PrintMembers;
    var body := open + PrintMembers(members);
    MembersKept(members, d + 1, h);
    SpaceKept(open, d + 1, h);
    KeepsConcat(Outside(d + 1), open, PrintMembers(members), h);
    KeepsEnclosed(Outside(d), OPEN_BRACE, body, CLOSE_BRACE, Outside(d + 1), h);
    PrintedObject(open, members);
  }

  lemma PrintedObject(open: Bytes, members: seq<Member>)
    ensures Print(Object(open, members)) == [OPEN_BRACE] + (open + PrintMembers(members)) + [CLOSE_BRACE]
  {}

  // ---------------------------------------------------------------- how deep a printed value goes

  ghost predicate Reaches(s: Scan, t: Bytes, depth: int) {
    exists k :: 0 <= k <= |t| && FeedAll(s, t[..k]).depth >= depth
  }

  lemma ReachesBefore(s: Scan, a: Bytes, b: Bytes, depth: int)
    requires Reaches(s, a, depth)
    ensures Reaches(s, a + b, depth)
  {
    var k :| 0 <= k <= |a| && FeedAll(s, a[..k]).depth >= depth;
    assert (a + b)[..k] == a[..k];
  }

  lemma ReachesAfter(s: Scan, a: Bytes, b: Bytes, depth: int)
    requires Reaches(FeedAll(s, a), b, depth)
    ensures Reaches(s, a + b, depth)
  {
    var k :| 0 <= k <= |b| && FeedAll(FeedAll(s, a), b[..k]).depth >= depth;
    assert (a + b)[..|a| + k] == a + b[..k];
    FeedConcat(s, a, b[..k]);
  }

  lemma ReachesStart(s: Scan, t: Bytes)
    ensures Reaches(s, t, s.depth)
  {
    assert t[..0] == [];
  }

  lemma KeptState(s: Scan, t: Bytes, high: int)
    requires Keeps(s, t, high)
    ensures FeedAll(s, t) == s
  {}

  lemma {:induction false} PrintReaches(j: Json, d: int)
    requires WellFormed(j)
    ensures Reaches(Outside(d), Print(j), d + Nesting(j))
    decreases j, 1
  {
    hide Reaches, Keeps, FeedAll, WhiteSpace, WellFormedItem, WellFormedMember;
    var s := Outside(d);
    match j
    case Array(open, items) =>
      ItemsReach(items, d);
      BracketKept(open, d, d);
      KeptState(s, [91] + open, d);
      ReachesAfter(s, [91] + open, PrintItems(items), d + Nesting(j));
      ReachesBefore(s, [91] + open + PrintItems(items), [93], d + Nesting(j));
    case Object(open, members) =>
      MembersReach(members, d + 1);
      BraceOpens(open, d);
      ReachesAfter(s, [OPEN_BRACE] + open, PrintMembers(members), d + Nesting(j));
      ReachesBefore(s, [OPEN_BRACE] + open + PrintMembers(members), [CLOSE_BRACE], d + Nesting(j));
    case _ => ReachesStart(s, Print(j));
  }

  lemma BraceOpens(ws: Bytes, d: int)
    requires WhiteSpace(ws)
    ensures FeedAll(Outside(d), [OPEN_BRACE] + ws) == Outside(d + 1)
  {
    assert [OPEN_BRACE][..0] == [];
    SpaceKept(ws, d + 1, d + 1);
    FeedConcat(Outside(d), [OPEN_BRACE], ws);
  }

  lemma {:induction false} ItemsReach(items: seq<Item>, d: int)
    requires forall i | 0 <= i < |items| :: WellFormedItem(items[i])
    ensures Reaches(Outside(d), PrintItems(items), d + NestingOfItems(items))
    decreases items, 0, |items|
  {
    hide Reaches, Keeps, FeedAll, Print, Separator, Nesting, WhiteSpace;
    var s := Outside(d);
    if |items| == 0 {
      ReachesStart(s, []);
    } else {
      var front, last := items[..|items| - 1], items[|items| - 1];
      assert WellFormedItem(last);
      var lead, value, deep := Separator(|items|) + last.before, Print(last.value), d + NestingOfItems(items);
      if Nesting(last.value) <= NestingOfItems(front) {
        ItemsReach(front, d);
        ReachesBefore(s, PrintItems(front), lead, deep);
        ReachesBefore(s, PrintItems(front) + lead, value, deep);
      } else {
        PrintReaches(last.value, d);
        ItemsKept(front, d, deep);
        LeadKept(|items|, last.before, d, deep);
        KeepsConcat(s, PrintItems(front), lead, deep);
        KeptState(s, PrintItems(front) + lead, deep);
        ReachesAfter(s, PrintItems(front) + lead, value, deep);
      }
      ReachesBefore(s, PrintItems(front) + lead + value, last.behind, deep);
    }
  }

  lemma {:induction false} MembersReach(members: seq<Member>, d: int)
    requires forall i | 0 <= i < |members| :: WellFormedMember(members[i])
    ensures Reaches(Outside(d), PrintMembers(members), d + NestingOfMembers(members))
    decreases members, 0, |members|
  {
    hide Reaches, Keeps, FeedAll, Print, PrintKey, Nesting, WhiteSpace, Legal;
    var s := Outside(d);
    if |members| == 0 {
      ReachesStart(s, []);
    } else {
      var front, last := members[..|members| - 1], members[|members| - 1];
      assert WellFormedMember(last);
      var key, value, deep := PrintKey(|members|, last), Print(last.value), d + NestingOfMembers(members);
      if Nesting(last.value) <= NestingOfMembers(front) {
        MembersReach(front, d);
        ReachesBefore(s, PrintMembers(front), key, deep);
        ReachesBefore(s, PrintMembers(front) + key, value, deep);
      } else {
        PrintReaches(last.value, d);
        MembersKept(front, d, deep);
        KeyKept(|members|, last, d, deep);
        KeepsConcat(s, PrintMembers(front), key, deep);
        KeptState(s, PrintMembers(front) + key, deep);
        ReachesAfter(s, PrintMembers(front) + key, value, deep);
      }
      ReachesBefore(s, PrintMembers(front) + key + value, last.behind, deep);
    }
  }

  lemma ShallowIffNesting(open: Bytes, members: seq<Member>)
    requires WellFormed(Object(open, members))
    ensures Shallow(Print(Object(open, members))) <==> Nesting(Object(open, members)) <= TWO_32
  {
    hide Print, Nesting, WellFormed;
    var t, n := Print(Object(open, members)), Nesting(Object(open, members));
    ObjectKept(open, members, 0, n);
    PrintReaches(Object(open, members), 0);
    var k :| 0 <= k <= |t| && FeedAll(Outside(0), t[..k]).depth >= n;
    assert t[..0] == [];
  }

  /** Any object text of the JSON grammar, after text without an opening brace and before any text, is returned exactly
      if and only if its braces nest no deeper than 2^32. */
  lemma PrintedObjectExtracted(before: Bytes, open: Bytes, members: seq<Member>, behind: Bytes)
    requires OPEN_BRACE !in before && WellFormed(Object(open, members))
    ensures Extract(before + Print(Object(open, members)) + behind) == Some(Print(Object(open, members)))
            <==> Nesting(Object(open, members)) <= TWO_32
  {
    hide Shallow, Print, Nesting, WellFormed, Keeps, Extract;
    var t, n := Print(Object(open, members)), Nesting(Object(open, members));
    ObjectKept(open, members, 0, n);
    PrintedObject(open, members);
    assert t[0] == OPEN_BRACE;
    KeptState(Outside(0), t, n);
    ShallowIffNesting(open, members);
    FoundBetween(before, t, behind);
  }

  lemma FoundBetween(before: Bytes, t: Bytes, behind: Bytes)
    requires OPEN_BRACE !in before && 0 < |t| && t[0] == OPEN_BRACE && Balanced(t)
    requires forall k | 1 <= k < |t| :: FeedAll(START, t[..k]).depth >= 1
    ensures Extract(before + t + behind) == Some(t) <==> Shallow(t)
  {
    hide Closes, Extract, FeedAll, Shallow;
    var s, start := before + t + behind, |before|;
    assert forall k | 0 <= k < start :: s[k] == before[k];
    assert s[start..start + |t|] == t;
    forall k | start < k < start + |t| ensures !Balanced(s[start..k]) {
      assert s[start..k] == t[..k - start];
    }
    ReturnsShortestBalanced(s, start, start + |t|);
    ExtractedIff(s, start, start + |t|);
  }

  lemma ExtractedIff(s: Bytes, p: nat, e: nat)
    requires FirstBrace(s, p) && p < e <= |s|
    ensures Extract(s) == Some(s[p..e]) <==> FirstClose(s, p, e)
  {
    hide Closes;
    if FirstClose(s, p, e) {
      ExtractIs(s, p, e);
    } else if Extract(s).Some? {
      var q: nat, f: nat :| FirstBrace(s, q) && FirstClose(s, q, f) && Extract(s) == Some(s[q..f]);
      assert q == p;
    }
  }

  // ---------------------------------------------------------------- character boundaries

  // A Unicode scalar value.
  type Scalar = c: nat | c < 0xD800 || 0xE000 <= c < 0x11_0000

  // Section 3 of RFC 3629.
  function Encode(c: Scalar): (b: Bytes)
    ensures 1 <= |b| <= 4
    ensures |b| > 1 ==> forall i | 0 <= i < |b| :: b[i] >= 128
  {
    if c < 0x80 then [c]
    else if c < 0x800 then [0xC0 + c / 64, 0x80 + c % 64]
    else if c < 0x1_0000 then [0xE0 + c / 4096, 0x80 + c / 64 % 64, 0x80 + c % 64]
    else [0xF0 + c / 262_144, 0x80 + c / 4096 % 64, 0x80 + c / 64 % 64, 0x80 + c % 64]
  }

  function EncodeAll(cs: seq<Scalar>): Bytes {
    if |cs| == 0 then [] else EncodeAll(cs[..|cs| - 1]) + Encode(cs[|cs| - 1])
  }

  // Cutting at k splits the text between two characters.
  ghost predicate Boundary(cs: seq<Scalar>, k: nat) {
    exists j: nat :: j <= |cs| && |EncodeAll(cs[..j])| == k
  }

  lemma {:induction false} AsciiBetweenBoundaries(cs: seq<Scalar>, k: nat)
    requires k < |EncodeAll(cs)| && EncodeAll(cs)[k] < 128
    ensures Boundary(cs, k) && Boundary(cs, k + 1)
  {
    var front, last := cs[..|cs| - 1], cs[|cs| - 1];
    var n := |EncodeAll(front)|;
    if k < n {
      AsciiBetweenBoundaries(front, k);
      BoundaryExtends(front, cs, k);
      BoundaryExtends(front, cs, k + 1);
    } else {
      assert EncodeAll(cs)[k] == Encode(last)[k - n];
      assert |EncodeAll(cs[..|cs| - 1])| == n;
      assert cs[..|cs|] == cs && |EncodeAll(cs[..|cs|])| == n + 1;
    }
  }

  lemma BoundaryExtends(front: seq<Scalar>, cs: seq<Scalar>, k: nat)
    requires front <= cs && Boundary(front, k)
    ensures Boundary(cs, k)
  {
    var j: nat :| j <= |front| && |EncodeAll(front[..j])| == k;
    assert cs[..j] == front[..j];
  }

  /** The returned slice of a UTF-8 text begins and ends between characters. */
  lemma SliceOnBoundaries(cs: seq<Scalar>, start: nat, end: nat)
    requires FirstBrace(EncodeAll(cs), start) && FirstClose(EncodeAll(cs), start, end)
    ensures Boundary(cs, start) && Boundary(cs, end)
  {
    var s := EncodeAll(cs);
    AsciiBetweenBoundaries(cs, start);
    assert s[start..end][end - start - 1] == s[end - 1];
    AsciiBetweenBoundaries(cs, end - 1);
  }
}
