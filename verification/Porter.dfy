/** The stemmer that rewrites a byte buffer in place and returns how much of it is left. */
module Porter {
  import opened Wrappers
  import opened PorterSpec

  // ---------------------------------------------------------------- counting

  // The measure of the first i letters.
  function MeasureTo(w: Word, i: nat): nat
    requires i <= |w|
  {
    Transitions(Flags(w)[..i])
  }

  lemma MeasureOfOneMore(w: Word, i: nat)
    requires i < |w|
    ensures MeasureTo(w, i + 1) == MeasureTo(w, i) + (if i > 0 && !IsC(w, i - 1) && IsC(w, i) then 1 else 0)
  {
    var f := Flags(w);
    assert f[..i + 1] == f[..i] + [f[i]];
    TransitionsConcat(f[..i], [f[i]]);
  }

  lemma MeasureOfNoneAndAll(w: Word)
    ensures MeasureTo(w, 0) == 0 && MeasureTo(w, |w|) == Measure(w)
  {
    assert Flags(w)[..|w|] == Flags(w);
  }

  /** The counting loops find the measure. */
  method MeasureLoop(w: Word) returns (count: nat)
    ensures count == Measure(w)
  {
    hide MeasureTo, Measure, IsC;
    MeasureOfNoneAndAll(w);
    var i := 0;
    while i < |w| && IsC(w, i)
      invariant 0 <= i <= |w| && MeasureTo(w, i) == 0
      invariant i > 0 ==> IsC(w, i - 1)
    {
      MeasureOfOneMore(w, i);
      i := i + 1;
    }
    count := 0;
    while true
      invariant 0 <= i <= |w| && MeasureTo(w, i) == count
      invariant i < |w| ==> !IsC(w, i)
      decreases |w| - i
    {
      ghost var start := i;
      while i < |w| && !IsC(w, i)
        invariant start <= i <= |w| && MeasureTo(w, i) == count
        invariant i > start ==> !IsC(w, i - 1)
        invariant i == start && i < |w| ==> !IsC(w, i)
      {
        MeasureOfOneMore(w, i);
        i := i + 1;
      }
      if i >= |w| {
        break;
      }
      count := count + 1;
      ghost var first := i;
      while i < |w| && IsC(w, i)
        invariant first <= i <= |w|
        invariant i == first ==> !IsC(w, i - 1) && IsC(w, i) && MeasureTo(w, i) + 1 == count
        invariant i > first ==> IsC(w, i - 1) && MeasureTo(w, i) == count
      {
        MeasureOfOneMore(w, i);
        i := i + 1;
      }
    }
  }

  // ---------------------------------------------------------------- rule tables

  // No replacement is longer than the suffix it replaces, so it fits where the suffix was.
  predicate Fits(rules: seq<Rule>) {
    forall i | 0 <= i < |rules| :: |rules[i].replacement| <= |rules[i].suffix|
  }

  // Rules carry no condition that the table steps do not test.
  method TestCondition(c: Condition, stem: Word) returns (b: bool)
    ensures b == Holds(c, stem)
  {
    match c {
      case Always => b := true;
      case StemHasVowel => b := HasVowel(stem);
      case MeasureOver0 =>
        var m := MeasureLoop(stem);
        b := m > 0;
      case MeasureOver1 =>
        var m := MeasureLoop(stem);
        b := m > 1;
      case MeasureOver1AfterST =>
        var m := MeasureLoop(stem);
        b := |stem| > 0 && m > 1 && (stem[|stem| - 1] == 's' || stem[|stem| - 1] == 't');
    }
  }

  // `w[b..b + text.len()].copy_from_slice(text)`
  method CopyFromSlice(w: array<char>, b: nat, text: Word)
    requires b + |text| <= w.Length
    modifies w
    ensures w[..b] == old(w[..b]) && w[b..b + |text|] == text
  {
    var i := 0;
    while i < |text|
      invariant 0 <= i <= |text|
      invariant w[..b] == old(w[..b]) && w[b..b + i] == text[..i]
    {
      w[b + i] := text[i];
      i := i + 1;
    }
  }

  /** Try the rules in order; the first whose suffix matches decides. */
  method ApplyRules(w: array<char>, end: nat, rules: seq<Rule>) returns (n: nat)
    requires end <= w.Length && Fits(rules) && LongerFirst(rules)
    modifies w
    ensures n <= end && w[..n] == Obey(rules, old(w[..end]))
  {
    hide Holds, LongerFirst, Longest;
    FirstIsLongest(rules, w[..end]);
    var i := 0;
    ghost var word := w[..end];
    assert rules[0..] == rules;
    while i < |rules|
      invariant 0 <= i <= |rules|
      invariant w[..end] == word
      invariant First(rules, word) == First(rules[i..], word)
    {
      var r := rules[i];
      assert rules[i..][1..] == rules[i + 1..] && r in rules;
      if EndsWith(w[..end], r.suffix) {
        var b := end - |r.suffix|;
        assert w[..b] == StemOf(r, word);
        var go := TestCondition(r.condition, w[..b]);
        if go {
          CopyFromSlice(w, b, r.replacement);
          n := b + |r.replacement|;
          assert w[..n] == w[..b] + w[b..n];
          return;
        }
        return end;
      }
      i := i + 1;
    }
    n := end;
  }

  // ---------------------------------------------------------------- the steps in place

  method S1a(w: array<char>, end: nat) returns (n: nat)
    requires end <= w.Length
    modifies w
    ensures n <= end && w[..n] == Step1a(old(w[..end]))
  {
    hide Step1a, IsC;
    ghost var word := w[..end];
    First1a(word);
    if EndsWith(w[..end], "sses") {
      n := end - 2;
    } else if EndsWith(w[..end], "ies") {
      w[end - 3] := 'i';
      n := end - 2;
    } else if EndsWith(w[..end], "ss") {
      n := end;
    } else if EndsWith(w[..end], "s") {
      n := end - 1;
    } else {
      n := end;
    }
  }

  lemma First1a(w: Word)
    ensures Step1a(w) ==
              if EndsWith(w, "sses") then w[..|w| - 2]
              else if EndsWith(w, "ies") then w[..|w| - 2]
              else if EndsWith(w, "ss") then w
              else if EndsWith(w, "s") then w[..|w| - 1]
              else w
    ensures EndsWith(w, "ies") ==> w[|w| - 3] == 'i'
  {
    hide Longest, First;
    Table1aLongerFirst();
    ObeyFour(RULES_1A[0], RULES_1A[1], RULES_1A[2], RULES_1A[3], w);
    if EndsWith(w, "sses") {
      assert w == w[..|w| - 4] + "sses";
    } else if EndsWith(w, "ies") {
      assert w == w[..|w| - 3] + "ies";
    } else if EndsWith(w, "ss") {
      assert w == w[..|w| - 2] + "ss";
    }
    if EndsWith(w, "ies") {
      assert w[|w| - 3..][0] == 'i';
    }
  }

  lemma FirstUnfolds(rules: seq<Rule>, r: Rule, rest: seq<Rule>, w: Word)
    requires rules == [r] + rest
    ensures First(rules, w) == if EndsWith(w, r.suffix) then Some(r) else First(rest, w)
  {}

  lemma FirstOfThree(a: Rule, b: Rule, c: Rule, w: Word)
    ensures First([a, b, c], w) ==
              if EndsWith(w, a.suffix) then Some(a)
              else if EndsWith(w, b.suffix) then Some(b)
              else if EndsWith(w, c.suffix) then Some(c)
              else None
  {
    hide EndsWith;
    FirstUnfolds([a, b, c], a, [b, c], w);
    FirstUnfolds([b, c], b, [c], w);
    FirstUnfolds([c], c, [], w);
  }

  lemma ObeyThree(a: Rule, b: Rule, c: Rule, w: Word)
    requires LongerFirst([a, b, c])
    ensures Obey([a, b, c], w) ==
              if EndsWith(w, a.suffix) then Fire(a, w)
              else if EndsWith(w, b.suffix) then Fire(b, w)
              else if EndsWith(w, c.suffix) then Fire(c, w)
              else w
    ensures Longest([a, b, c], w) == First([a, b, c], w)
  {
    hide LongerFirst, Longest, First;
    FirstIsLongest([a, b, c], w);
    FirstOfThree(a, b, c, w);
  }

  lemma ObeyFour(a: Rule, b: Rule, c: Rule, d: Rule, w: Word)
    requires LongerFirst([a, b, c, d])
    ensures Obey([a, b, c, d], w) ==
              if EndsWith(w, a.suffix) then Fire(a, w)
              else if EndsWith(w, b.suffix) then Fire(b, w)
              else if EndsWith(w, c.suffix) then Fire(c, w)
              else if EndsWith(w, d.suffix) then Fire(d, w)
              else w
  {
    hide LongerFirst, Longest, First;
    FirstIsLongest([a, b, c, d], w);
    FirstUnfolds([a, b, c, d], a, [b, c, d], w);
    FirstOfThree(b, c, d, w);
  }

  /** Both writes that grow the word land inside the buffer, because a suffix was removed before. */
  method S1b2(w: array<char>, end: nat) returns (n: nat)
    requires end < w.Length
    modifies w
    ensures n <= end + 1 && w[..n] == Step1bTail(old(w[..end]))
  {
    ghost var word := w[..end];
    First1bTail(word);
    if EndsWith(w[..end], "at") || EndsWith(w[..end], "bl") || EndsWith(w[..end], "iz") {
      w[end] := 'e';
      assert w[..end + 1] == word + "e";
      return end + 1;
    }
    if DoubleC(w[..end]) && w[end - 1] !in "lsz" {
      return end - 1;
    }
    var m := MeasureLoop(w[..end]);
    if m == 1 && EndsCvc(w[..end]) {
      w[end] := 'e';
      assert w[..end + 1] == word + "e";
      return end + 1;
    }
    n := end;
  }

  lemma First1bTail(w: Word)
    ensures Longest(RULES_1B_TAIL, w).Some? <==> EndsWith(w, "at") || EndsWith(w, "bl") || EndsWith(w, "iz")
    ensures Longest(RULES_1B_TAIL, w).Some? ==> Step1bTail(w) == w + "e"
  {
    hide Longest, First;
    var r := RULES_1B_TAIL;
    Table1bTailLongerFirst();
    ObeyThree(r[0], r[1], r[2], w);
    FirstOfThree(r[0], r[1], r[2], w);
    if EndsWith(w, "at") {
      assert w == w[..|w| - 2] + "at" && "ate" == "at" + "e";
    } else if EndsWith(w, "bl") {
      assert w == w[..|w| - 2] + "bl" && "ble" == "bl" + "e";
    } else if EndsWith(w, "iz") {
      assert w == w[..|w| - 2] + "iz" && "ize" == "iz" + "e";
    }
  }

  method S1b(w: array<char>, end: nat) returns (n: nat)
    requires end <= w.Length
    modifies w
    ensures n <= end && w[..n] == Step1b(old(w[..end]))
  {
    hide Step1b, Step1bTail, Measure, HasVowel;
    First1b(w[..end]);
    if EndsWith(w[..end], "eed") {
      var b := end - 3;
      var m := MeasureLoop(w[..b]);
      assert w[..b] == w[..end][..b];
      return if m > 0 then end - 1 else end;
    }
    if EndsWith(w[..end], "ed") {
      var b := end - 2;
      assert w[..b] == w[..end][..b];
      if HasVowel(w[..b]) {
        n := S1b2(w, b);
        return;
      }
      return end;
    }
    if EndsWith(w[..end], "ing") {
      var b := end - 3;
      assert w[..b] == w[..end][..b];
      if HasVowel(w[..b]) {
        n := S1b2(w, b);
        return;
      }
    }
    n := end;
  }

  lemma First1b(w: Word)
    ensures Step1b(w) ==
              if EndsWith(w, "eed") then (if Measure(w[..|w| - 3]) > 0 then w[..|w| - 1] else w)
              else if EndsWith(w, "ed") then (if HasVowel(w[..|w| - 2]) then Step1bTail(w[..|w| - 2]) else w)
              else if EndsWith(w, "ing") then (if HasVowel(w[..|w| - 3]) then Step1bTail(w[..|w| - 3]) else w)
              else w
  {
    hide Longest, First, Step1bTail, Measure, HasVowel;
    var r := RULES_1B;
    Table1bLongerFirst();
    ObeyThree(r[0], r[1], r[2], w);
    FirstOfThree(r[0], r[1], r[2], w);
    if EndsWith(w, "eed") {
      assert w == w[..|w| - 3] + "eed" && "eed" == "ee" + "d";
    }
  }

  method S1c(w: array<char>, end: nat) returns (n: nat)
    requires end <= w.Length
    modifies w
    ensures n <= end && w[..n] == Step1c(old(w[..end]))
  {
    ghost var word := w[..end];
    First1c(word);
    assert end > 0 ==> w[..end - 1] == word[..end - 1];
    if EndsWith(w[..end], "y") && HasVowel(w[..end - 1]) {
      w[end - 1] := 'i';
      assert w[..end] == word[..end - 1] + "i";
    }
    n := end;
  }

  lemma First1c(w: Word)
    ensures Step1c(w) == if EndsWith(w, "y") && HasVowel(w[..|w| - 1]) then w[..|w| - 1] + "i" else w
  {
    hide Longest, First, HasVowel;
    Table1cLongerFirst();
    FirstIsLongest(RULES_1C, w);
    FirstUnfolds(RULES_1C, RULES_1C[0], [], w);
    assert First([], w) == None;
  }

  lemma Table2Fits()
    ensures Fits(RULES_2)
  {}

  lemma Table3Fits()
    ensures Fits(RULES_3)
  {}

  lemma Table4Fits()
    ensures Fits(RULES_4)
  {}

  method S2(w: array<char>, end: nat) returns (n: nat)
    requires end <= w.Length
    modifies w
    ensures n <= end && w[..n] == Step2(old(w[..end]))
  {
    hide Fits, LongerFirst, Obey;
    Table2Fits();
    Table2LongerFirst();
    n := ApplyRules(w, end, RULES_2);
  }

  method S3(w: array<char>, end: nat) returns (n: nat)
    requires end <= w.Length
    modifies w
    ensures n <= end && w[..n] == Step3(old(w[..end]))
  {
    hide Fits, LongerFirst, Obey;
    Table3Fits();
    Table3LongerFirst();
    n := ApplyRules(w, end, RULES_3);
  }

  method S4(w: array<char>, end: nat) returns (n: nat)
    requires end <= w.Length
    modifies w
    ensures n <= end && w[..n] == Step4(old(w[..end]))
  {
    hide Fits, LongerFirst, Obey;
    Table4Fits();
    Table4LongerFirst();
    n := ApplyRules(w, end, RULES_4);
  }

  method S5a(w: array<char>, end: nat) returns (n: nat)
    requires end <= w.Length
    ensures n <= end && w[..n] == Step5a(w[..end])
  {
    if EndsWith(w[..end], "e") {
      var b := end - 1;
      assert w[..b] == w[..end][..b];
      var m := MeasureLoop(w[..b]);
      if m > 1 {
        return b;
      }
      if m == 1 && !EndsCvc(w[..b]) {
        return b;
      }
    }
    n := end;
  }

  method S5b(w: array<char>, end: nat) returns (n: nat)
    requires end <= w.Length
    ensures n <= end && w[..n] == Step5b(w[..end])
  {
    var m := MeasureLoop(w[..end]);
    EndsDoubleL(w[..end]);
    if EndsWith(w[..end], "ll") && m > 1 {
      assert w[..end - 1] == w[..end][..end - 1];
      n := end - 1;
    } else {
      n := end;
    }
  }

  lemma EndsDoubleL(w: Word)
    ensures EndsWith(w, "ll") <==> DoubleC(w) && EndsWith(w, "l")
  {}

  /** The in-place stemmer leaves exactly the word that the rules of the algorithm give. */
  method StemInPlace(w: array<char>) returns (n: nat)
    modifies w
    ensures n <= w.Length && w[..n] == Stem(old(w[..]))
  {
    assert w[..w.Length] == w[..];
    if w.Length <= 2 {
      return w.Length;
    }
    hide Step1a, Step1b, Step1c, Step2, Step3, Step4, Step5a, Step5b;
    n := S1a(w, w.Length);
    n := S1b(w, n);
    n := S1c(w, n);
    n := S2(w, n);
    n := S3(w, n);
    n := S4(w, n);
    n := S5a(w, n);
    n := S5b(w, n);
  }

  // ---------------------------------------------------------------- what is left of a word

  predicate Lower(w: Word) {
    forall i | 0 <= i < |w| :: 'a' <= w[i] <= 'z'
  }

  predicate Trimmed(n: Word, w: Word) {
    1 <= |n| <= |w| && Lower(n)
  }

  // A rule that shortens, writes lowercase letters and asks for a positive measure.
  predicate Tame(r: Rule) {
    |r.replacement| <= |r.suffix| && Lower(r.replacement) && !r.condition.Always? && !r.condition.StemHasVowel?
  }

  lemma MeasuredNotEmpty(w: Word)
    ensures Measure(w) > 0 ==> |w| >= 2
    ensures HasVowel(w) ==> |w| >= 1
  {}

  lemma ObeyTame(rules: seq<Rule>, w: Word)
    requires forall r | r in rules :: Tame(r)
    requires |w| >= 1 && Lower(w)
    ensures Trimmed(Obey(rules, w), w)
  {
    hide Longest, Measure, EndsWith;
    LongestMatches(rules, w);
    if Longest(rules, w).Some? {
      var r := Longest(rules, w).value;
      FireTame(r, w);
    }
  }

  lemma FireTame(r: Rule, w: Word)
    requires Tame(r) && EndsWith(w, r.suffix) && |w| >= 1 && Lower(w)
    ensures Trimmed(Fire(r, w), w)
  {}

  lemma Table2Tame(i: nat)
    requires i < |RULES_2|
    ensures Tame(RULES_2[i])
  {}

  lemma Table3Tame(i: nat)
    requires i < |RULES_3|
    ensures Tame(RULES_3[i])
  {}

  lemma Table4Tame(i: nat)
    requires i < |RULES_4|
    ensures Tame(RULES_4[i])
  {}

  lemma TablesTame()
    ensures forall r | r in RULES_2 :: Tame(r)
    ensures forall r | r in RULES_3 :: Tame(r)
    ensures forall r | r in RULES_4 :: Tame(r)
  {
    hide Tame;
    forall i | 0 <= i < |RULES_2| ensures Tame(RULES_2[i]) {
      Table2Tame(i);
    }
    forall i | 0 <= i < |RULES_3| ensures Tame(RULES_3[i]) {
      Table3Tame(i);
    }
    forall i | 0 <= i < |RULES_4| ensures Tame(RULES_4[i]) {
      Table4Tame(i);
    }
  }

  lemma Step1aTrims(w: Word)
    requires |w| >= 3 && Lower(w)
    ensures Trimmed(Step1a(w), w)
  {
    hide Step1a;
    First1a(w);
  }

  lemma Step1bTrims(w: Word)
    requires |w| >= 1 && Lower(w)
    ensures Trimmed(Step1b(w), w)
  {
    hide Step1b, Longest, Measure;
    First1b(w);
    if EndsWith(w, "ed") {
      TailTrims(w[..|w| - 2]);
    }
    if EndsWith(w, "ing") {
      TailTrims(w[..|w| - 3]);
    }
  }

  lemma TailTrims(w: Word)
    requires Lower(w)
    ensures Lower(Step1bTail(w)) && |Step1bTail(w)| <= |w| + 1
    ensures |w| >= 1 ==> |Step1bTail(w)| >= 1
  {
    hide Longest, Measure, IsC, EndsCvc;
    First1bTail(w);
  }

  lemma LaterStepsTrim(w: Word)
    requires |w| >= 1 && Lower(w)
    ensures Trimmed(Step1c(w), w) && Trimmed(Step2(w), w) && Trimmed(Step3(w), w) && Trimmed(Step4(w), w)
    ensures Trimmed(Step5a(w), w) && Trimmed(Step5b(w), w)
  {
    hide Obey, Tame, Measure, EndsCvc, DoubleC;
    hide Step1c;
    First1c(w);
    TablesTame();
    ObeyTame(RULES_2, w);
    ObeyTame(RULES_3, w);
    ObeyTame(RULES_4, w);
    MeasuredNotEmpty(w);
    MeasuredNotEmpty(w[..|w| - 1]);
  }

  /** A lowercase word of three or more letters keeps at least one letter, grows by none and stays lowercase. */
  lemma StemTrims(w: Word)
    requires |w| >= 3 && Lower(w)
    ensures 1 <= |Stem(w)| <= |w| && Lower(Stem(w))
  {
    hide Step1a, Step1b, Step1c, Step2, Step3, Step4, Step5a, Step5b;
    var w1 := Step1a(w);
    Step1aTrims(w);
    var w2 := Step1b(w1);
    Step1bTrims(w1);
    var w3 := Step1c(w2);
    LaterStepsTrim(w2);
    var w4 := Step2(w3);
    LaterStepsTrim(w3);
    var w5 := Step3(w4);
    LaterStepsTrim(w4);
    var w6 := Step4(w5);
    LaterStepsTrim(w5);
    var w7 := Step5a(w6);
    LaterStepsTrim(w6);
    LaterStepsTrim(w7);
  }
}
