/** The suffix-stripping rules of Porter (1980), one pure function a step. */
module PorterSpec {
  import opened Wrappers

  type Word = string

  // ---------------------------------------------------------------- consonants and the measure

  // A letter other than a, e, i, o, u, and other than y after a consonant.
  predicate IsC(w: Word, i: nat)
    requires i < |w|
    decreases i
  {
    if w[i] in "aeiou" then false
    else if w[i] == 'y' then i == 0 || !IsC(w, i - 1)
    else true
  }

  function Flags(w: Word): (f: seq<bool>)
    ensures |f| == |w|
  {
    seq(|w|, i requires 0 <= i < |w| => IsC(w, i))
  }

  // How often a vowel is followed directly by a consonant.
  function Transitions(f: seq<bool>): nat {
    if |f| < 2 then 0
    else (if !f[0] && f[1] then 1 else 0) + Transitions(f[1..])
  }

  function Measure(w: Word): nat {
    Transitions(Flags(w))
  }

  lemma {:induction false} IsCOnPrefix(w: Word, k: nat, i: nat)
    requires i < k <= |w|
    ensures IsC(w[..k], i) == IsC(w, i)
    decreases i
  {
    if i > 0 {
      IsCOnPrefix(w, k, i - 1);
    }
  }

  lemma FlagsOnPrefix(w: Word, k: nat)
    requires k <= |w|
    ensures Flags(w[..k]) == Flags(w)[..k]
  {
    forall i | 0 <= i < k ensures Flags(w[..k])[i] == Flags(w)[i] {
      IsCOnPrefix(w, k, i);
    }
  }

  predicate AllSame(f: seq<bool>, c: bool) {
    forall i | 0 <= i < |f| :: f[i] == c
  }

  /** (VC)^m[V] on consonant flags, every C and V standing for a nonempty run. */
  ghost predicate VowelConsonantRuns(f: seq<bool>, m: nat)
    decreases m
  {
    if m == 0 then AllSame(f, false)
    else exists j: nat, k: nat :: Block(f, j, k) && VowelConsonantRuns(f[k..], m - 1)
  }

  // f starts with a run of j vowels and a run of consonants up to k.
  predicate Block(f: seq<bool>, j: nat, k: nat) {
    0 < j < k <= |f| && AllSame(f[..j], false) && AllSame(f[j..k], true)
  }

  /** [C](VC)^m[V] */
  ghost predicate HasForm(f: seq<bool>, m: nat) {
    exists i: nat :: i <= |f| && AllSame(f[..i], true) && VowelConsonantRuns(f[i..], m)
  }

  lemma {:induction false} TransitionsConcat(f: seq<bool>, g: seq<bool>)
    ensures Transitions(f + g) == Transitions(f) + Transitions(g)
              + (if |f| > 0 && |g| > 0 && !f[|f| - 1] && g[0] then 1 else 0)
  {
    if |f| == 0 {
      assert f + g == g;
    } else if |f| == 1 {
      assert (f + g)[1..] == g;
    } else {
      assert (f + g)[1..] == f[1..] + g;
      TransitionsConcat(f[1..], g);
    }
  }

  lemma {:induction false} NoTransitionInRun(f: seq<bool>, c: bool)
    requires AllSame(f, c)
    ensures Transitions(f) == 0
  {
    if |f| >= 2 {
      NoTransitionInRun(f[1..], c);
    }
  }

  // One block VC in front adds one transition.
  lemma BlockCounts(f: seq<bool>, j: nat, k: nat)
    requires Block(f, j, k)
    ensures Transitions(f) == 1 + Transitions(f[k..])
  {
    NoTransitionInRun(f[..j], false);
    NoTransitionInRun(f[j..k], true);
    assert !f[..j][j - 1] && f[j..k][0] && f[j..k][k - j - 1];
    TransitionsConcat(f[..j], f[j..k]);
    assert f[..k] == f[..j] + f[j..k];
    TransitionsConcat(f[..k], f[k..]);
    assert f == f[..k] + f[k..];
  }

  lemma {:induction false} RunsCount(f: seq<bool>, m: nat)
    requires VowelConsonantRuns(f, m)
    ensures Transitions(f) == m
    decreases m
  {
    if m == 0 {
      NoTransitionInRun(f, false);
    } else {
      var j: nat, k: nat :| Block(f, j, k) && VowelConsonantRuns(f[k..], m - 1);
      RunsCount(f[k..], m - 1);
      BlockCounts(f, j, k);
    }
  }

  lemma {:induction false} SomeForm(f: seq<bool>) returns (m: nat)
    ensures HasForm(f, m)
  {
    if |f| == 0 {
      m := 0;
      assert AllSame(f[..0], true) && VowelConsonantRuns(f[0..], 0);
    } else {
      var n := SomeForm(f[1..]);
      m := PrependLetter(f, n);
    }
  }

  lemma PrependLetter(f: seq<bool>, n: nat) returns (m: nat)
    requires |f| > 0 && HasForm(f[1..], n)
    ensures HasForm(f, m)
  {
    var g := f[1..];
    var i: nat :| i <= |g| && AllSame(g[..i], true) && VowelConsonantRuns(g[i..], n);
    assert f[i + 1..] == g[i..] && f[1..i + 1] == g[..i];
    hide VowelConsonantRuns;
    if f[0] {
      m := n;
      assert f[..i + 1] == [f[0]] + f[1..i + 1];
      assert AllSame(f[..i + 1], true);
    } else {
      if i > 0 {
        m := n + 1;
        VowelThenConsonants(f, i + 1, n);
      } else {
        m := n;
        LeadingVowel(f, n);
      }
      assert f[0..] == f && AllSame(f[..0], true);
    }
  }

  lemma VowelThenConsonants(f: seq<bool>, k: nat, m: nat)
    requires 1 < k <= |f| && !f[0] && AllSame(f[1..k], true) && VowelConsonantRuns(f[k..], m)
    ensures VowelConsonantRuns(f, m + 1)
  {
    assert Block(f, 1, k);
  }

  lemma LeadingVowel(f: seq<bool>, m: nat)
    requires |f| > 0 && !f[0] && VowelConsonantRuns(f[1..], m)
    ensures VowelConsonantRuns(f, m)
  {
    var g := f[1..];
    if m > 0 {
      var j: nat, k: nat :| Block(g, j, k) && VowelConsonantRuns(g[k..], m - 1);
      assert f == [f[0]] + g;
      assert f[..j + 1] == [f[0]] + g[..j];
      assert f[j + 1..k + 1] == g[j..k];
      assert f[k + 1..] == g[k..];
      assert Block(f, j + 1, k + 1);
    }
  }

  /** Every word has the form [C](VC)^m[V] for exactly one m, and that m is its measure. */
  lemma MeasureIsUniqueForm(w: Word, m: nat)
    ensures HasForm(Flags(w), m) <==> m == Measure(w)
  {
    var f := Flags(w);
    var n := SomeForm(f);
    FormCounts(f, n);
    if HasForm(f, m) {
      FormCounts(f, m);
    }
  }

  lemma FormCounts(f: seq<bool>, m: nat)
    requires HasForm(f, m)
    ensures Transitions(f) == m
  {
    var i: nat :| i <= |f| && AllSame(f[..i], true) && VowelConsonantRuns(f[i..], m);
    RunsCount(f[i..], m);
    NoTransitionInRun(f[..i], true);
    TransitionsConcat(f[..i], f[i..]);
    assert f == f[..i] + f[i..];
  }

  /** A longer prefix never has a smaller measure. */
  lemma MeasureMonotone(w: Word, j: nat, k: nat)
    requires j <= k <= |w|
    ensures Measure(w[..j]) <= Measure(w[..k])
  {
    FlagsOnPrefix(w, j);
    FlagsOnPrefix(w, k);
    var f := Flags(w);
    assert f[..k] == f[..j] + f[j..k];
    TransitionsConcat(f[..j], f[j..k]);
  }

  // ---------------------------------------------------------------- conditions

  predicate HasVowel(w: Word) {
    exists i | 0 <= i < |w| :: !IsC(w, i)
  }

  // *d: a double consonant
  predicate DoubleC(w: Word) {
    |w| >= 2 && w[|w| - 1] == w[|w| - 2] && IsC(w, |w| - 1)
  }

  // *o: consonant, vowel, consonant, the last not w, x or y
  predicate EndsCvc(w: Word) {
    && |w| >= 3
    && IsC(w, |w| - 3) && !IsC(w, |w| - 2) && IsC(w, |w| - 1)
    && w[|w| - 1] !in "wxy"
  }

  predicate EndsWith(w: Word, suffix: Word) {
    |suffix| <= |w| && w[|w| - |suffix|..] == suffix
  }

  datatype Condition = Always | StemHasVowel | MeasureOver0 | MeasureOver1 | MeasureOver1AfterST

  predicate Holds(c: Condition, stem: Word) {
    match c
    case Always => true
    case StemHasVowel => HasVowel(stem)
    case MeasureOver0 => Measure(stem) > 0
    case MeasureOver1 => Measure(stem) > 1
    case MeasureOver1AfterST => Measure(stem) > 1 && (EndsWith(stem, "s") || EndsWith(stem, "t"))
  }

  datatype Rule = Rule(suffix: Word, replacement: Word, condition: Condition)

  // ---------------------------------------------------------------- choosing a rule

  // The longest matching suffix, the earlier of two equal ones.
  function Longest(rules: seq<Rule>, w: Word): Option<Rule> {
    if |rules| == 0 then None
    else
      var rest := Longest(rules[1..], w);
      if EndsWith(w, rules[0].suffix) && (rest.None? || |rules[0].suffix| >= |rest.value.suffix|)
      then Some(rules[0])
      else rest
  }

  // The first matching suffix.
  function First(rules: seq<Rule>, w: Word): (r: Option<Rule>)
    ensures r.Some? ==> r.value in rules && EndsWith(w, r.value.suffix)
  {
    if |rules| == 0 then None
    else if EndsWith(w, rules[0].suffix) then Some(rules[0])
    else First(rules[1..], w)
  }

  function StemOf(r: Rule, w: Word): Word
    requires EndsWith(w, r.suffix)
  {
    w[..|w| - |r.suffix|]
  }

  function Fire(r: Rule, w: Word): Word
    requires EndsWith(w, r.suffix)
  {
    if Holds(r.condition, StemOf(r, w)) then StemOf(r, w) + r.replacement else w
  }

  lemma {:induction false} LongestMatches(rules: seq<Rule>, w: Word)
    ensures Longest(rules, w).Some? ==>
              Longest(rules, w).value in rules && EndsWith(w, Longest(rules, w).value.suffix)
    ensures forall r | r in rules && EndsWith(w, r.suffix) ::
              Longest(rules, w).Some? && |r.suffix| <= |Longest(rules, w).value.suffix|
  {
    if |rules| > 0 {
      LongestMatches(rules[1..], w);
      assert forall r | r in rules :: r == rules[0] || r in rules[1..];
    }
  }

  /** In a step only the rule with the longest matching suffix counts; its condition decides what happens. */
  function Obey(rules: seq<Rule>, w: Word): Word {
    LongestMatches(rules, w);
    match Longest(rules, w)
    case None => w
    case Some(r) => Fire(r, w)
  }

  // No suffix is a proper suffix of a later one.
  ghost predicate LongerFirst(rules: seq<Rule>) {
    forall i, j | 0 <= i < j < |rules| ::
      |rules[i].suffix| < |rules[j].suffix| ==> !EndsWith(rules[j].suffix, rules[i].suffix)
  }

  lemma ShorterSuffix(w: Word, s: Word, t: Word)
    requires EndsWith(w, s) && EndsWith(w, t) && |s| <= |t|
    ensures EndsWith(t, s)
  {}

  /** With such a table, trying the rules in order finds the longest match. */
  lemma {:induction false} FirstIsLongest(rules: seq<Rule>, w: Word)
    requires LongerFirst(rules)
    ensures First(rules, w) == Longest(rules, w)
  {
    if |rules| > 0 {
      assert LongerFirst(rules[1..]) by {
        forall i, j | 0 <= i < j < |rules[1..]|
          ensures |rules[1..][i].suffix| < |rules[1..][j].suffix| ==>
                    !EndsWith(rules[1..][j].suffix, rules[1..][i].suffix)
        {
          assert rules[1..][i] == rules[i + 1] && rules[1..][j] == rules[j + 1];
        }
      }
      FirstIsLongest(rules[1..], w);
      LongestMatches(rules[1..], w);
      var rest := Longest(rules[1..], w);
      if EndsWith(w, rules[0].suffix) && rest.Some? {
        var j :| 0 <= j < |rules[1..]| && rules[1..][j] == rest.value;
        assert rules[j + 1] == rest.value;
        if |rules[0].suffix| <= |rest.value.suffix| {
          ShorterSuffix(w, rules[0].suffix, rest.value.suffix);
        }
      }
    }
  }

  // ---------------------------------------------------------------- the tables

  const RULES_1A: seq<Rule> := [
    Rule("sses", "ss", Always), Rule("ies", "i", Always), Rule("ss", "ss", Always), Rule("s", "", Always)]

  const RULES_1B: seq<Rule> := [
    Rule("eed", "ee", MeasureOver0), Rule("ed", "", StemHasVowel), Rule("ing", "", StemHasVowel)]

  const RULES_1B_TAIL: seq<Rule> := [
    Rule("at", "ate", Always), Rule("bl", "ble", Always), Rule("iz", "ize", Always)]

  const RULES_1C: seq<Rule> := [Rule("y", "i", StemHasVowel)]

  const RULES_2: seq<Rule> := [
    Rule("ational", "ate", MeasureOver0), Rule("tional", "tion", MeasureOver0),
    Rule("enci", "ence", MeasureOver0), Rule("anci", "ance", MeasureOver0),
    Rule("izer", "ize", MeasureOver0), Rule("abli", "able", MeasureOver0),
    Rule("alli", "al", MeasureOver0), Rule("entli", "ent", MeasureOver0),
    Rule("eli", "e", MeasureOver0), Rule("ousli", "ous", MeasureOver0),
    Rule("ization", "ize", MeasureOver0), Rule("ation", "ate", MeasureOver0),
    Rule("ator", "ate", MeasureOver0), Rule("alism", "al", MeasureOver0),
    Rule("iveness", "ive", MeasureOver0), Rule("fulness", "ful", MeasureOver0),
    Rule("ousness", "ous", MeasureOver0), Rule("aliti", "al", MeasureOver0),
    Rule("iviti", "ive", MeasureOver0), Rule("biliti", "ble", MeasureOver0)]

  const RULES_3: seq<Rule> := [
    Rule("icate", "ic", MeasureOver0), Rule("ative", "", MeasureOver0),
    Rule("alize", "al", MeasureOver0), Rule("iciti", "ic", MeasureOver0),
    Rule("ical", "ic", MeasureOver0), Rule("ful", "", MeasureOver0),
    Rule("ness", "", MeasureOver0)]

  const RULES_4: seq<Rule> := [
    Rule("al", "", MeasureOver1), Rule("ance", "", MeasureOver1), Rule("ence", "", MeasureOver1),
    Rule("er", "", MeasureOver1), Rule("ic", "", MeasureOver1), Rule("able", "", MeasureOver1),
    Rule("ible", "", MeasureOver1), Rule("ant", "", MeasureOver1), Rule("ement", "", MeasureOver1),
    Rule("ment", "", MeasureOver1), Rule("ent", "", MeasureOver1),
    Rule("ion", "", MeasureOver1AfterST),
    Rule("ou", "", MeasureOver1), Rule("ism", "", MeasureOver1), Rule("ate", "", MeasureOver1),
    Rule("iti", "", MeasureOver1), Rule("ous", "", MeasureOver1), Rule("ive", "", MeasureOver1),
    Rule("ize", "", MeasureOver1)]

  // ---------------------------------------------------------------- the tables try longer suffixes first

  function FromEnd(s: Word, k: nat): char {
    if k < |s| then s[|s| - 1 - k] else '-'
  }

  // s is no shorter than t, or one of its last five letters differs from t's.
  predicate Apart(s: Word, t: Word) {
    || |s| >= |t|
    || FromEnd(s, 0) != FromEnd(t, 0)
    || (|s| > 1 && FromEnd(s, 1) != FromEnd(t, 1))
    || (|s| > 2 && FromEnd(s, 2) != FromEnd(t, 2))
    || (|s| > 3 && FromEnd(s, 3) != FromEnd(t, 3))
    || (|s| > 4 && FromEnd(s, 4) != FromEnd(t, 4))
  }

  lemma ApartNotSuffix(s: Word, t: Word)
    requires Apart(s, t) && |s| < |t| && |s| > 0
    ensures !EndsWith(t, s)
  {}

  ghost predicate ApartFromLater(rules: seq<Rule>, i: nat)
    requires i < |rules|
  {
    forall j | i < j < |rules| :: Apart(rules[i].suffix, rules[j].suffix)
  }

  ghost predicate AllApart(rules: seq<Rule>) {
    (forall r | r in rules :: |r.suffix| > 0) && forall i | 0 <= i < |rules| :: ApartFromLater(rules, i)
  }

  lemma AllApartLongerFirst(rules: seq<Rule>)
    requires AllApart(rules)
    ensures LongerFirst(rules)
  {
    forall i, j | 0 <= i < j < |rules| && |rules[i].suffix| < |rules[j].suffix|
      ensures !EndsWith(rules[j].suffix, rules[i].suffix)
    {
      assert ApartFromLater(rules, i);
      ApartNotSuffix(rules[i].suffix, rules[j].suffix);
    }
  }

  lemma Table1aRow(i: nat)
    requires i < |RULES_1A|
    ensures ApartFromLater(RULES_1A, i)
  {}

  lemma Table1bRow(i: nat)
    requires i < |RULES_1B|
    ensures ApartFromLater(RULES_1B, i)
  {}

  lemma Table1bTailRow(i: nat)
    requires i < |RULES_1B_TAIL|
    ensures ApartFromLater(RULES_1B_TAIL, i)
  {}

  lemma Table2FirstRows(i: nat)
    requires i < 7
    ensures ApartFromLater(RULES_2, i)
  {}

  lemma Table2MiddleRows(i: nat)
    requires 7 <= i < 13
    ensures ApartFromLater(RULES_2, i)
  {}

  lemma Table2LastRows(i: nat)
    requires 13 <= i < |RULES_2|
    ensures ApartFromLater(RULES_2, i)
  {}

  lemma Table2Row(i: nat)
    requires i < |RULES_2|
    ensures ApartFromLater(RULES_2, i)
  {
    hide Apart, ApartFromLater;
    if i < 7 {
      Table2FirstRows(i);
    } else if i < 13 {
      Table2MiddleRows(i);
    } else {
      Table2LastRows(i);
    }
  }

  lemma Table3Row(i: nat)
    requires i < |RULES_3|
    ensures ApartFromLater(RULES_3, i)
  {}

  lemma Table4FirstRows(i: nat)
    requires i < 8
    ensures ApartFromLater(RULES_4, i)
  {}

  lemma Table4LastRows(i: nat)
    requires 8 <= i < |RULES_4|
    ensures ApartFromLater(RULES_4, i)
  {}

  lemma Table4Row(i: nat)
    requires i < |RULES_4|
    ensures ApartFromLater(RULES_4, i)
  {
    hide Apart, ApartFromLater;
    if i < 8 {
      Table4FirstRows(i);
    } else {
      Table4LastRows(i);
    }
  }

  lemma Table1aLongerFirst()
    ensures LongerFirst(RULES_1A)
  {
    hide Apart, ApartFromLater;
    forall i | 0 <= i < |RULES_1A| ensures ApartFromLater(RULES_1A, i) {
      Table1aRow(i);
    }
    AllApartLongerFirst(RULES_1A);
  }

  lemma Table1bLongerFirst()
    ensures LongerFirst(RULES_1B)
  {
    hide Apart, ApartFromLater;
    forall i | 0 <= i < |RULES_1B| ensures ApartFromLater(RULES_1B, i) {
      Table1bRow(i);
    }
    AllApartLongerFirst(RULES_1B);
  }

  lemma Table1bTailLongerFirst()
    ensures LongerFirst(RULES_1B_TAIL)
  {
    hide Apart, ApartFromLater;
    forall i | 0 <= i < |RULES_1B_TAIL| ensures ApartFromLater(RULES_1B_TAIL, i) {
      Table1bTailRow(i);
    }
    AllApartLongerFirst(RULES_1B_TAIL);
  }

  lemma Table1cLongerFirst()
    ensures LongerFirst(RULES_1C)
  {
    AllApartLongerFirst(RULES_1C);
  }

  lemma Table2LongerFirst()
    ensures LongerFirst(RULES_2)
  {
    hide Apart, ApartFromLater;
    forall i | 0 <= i < |RULES_2| ensures ApartFromLater(RULES_2, i) {
      Table2Row(i);
    }
    AllApartLongerFirst(RULES_2);
  }

  lemma Table3LongerFirst()
    ensures LongerFirst(RULES_3)
  {
    hide Apart, ApartFromLater;
    forall i | 0 <= i < |RULES_3| ensures ApartFromLater(RULES_3, i) {
      Table3Row(i);
    }
    AllApartLongerFirst(RULES_3);
  }

  lemma Table4LongerFirst()
    ensures LongerFirst(RULES_4)
  {
    hide Apart, ApartFromLater;
    forall i | 0 <= i < |RULES_4| ensures ApartFromLater(RULES_4, i) {
      Table4Row(i);
    }
    AllApartLongerFirst(RULES_4);
  }

  /** In every table the first matching rule is the one with the longest matching suffix. */
  lemma FirstMatchIsLongest(w: Word)
    ensures First(RULES_1A, w) == Longest(RULES_1A, w)
    ensures First(RULES_1B, w) == Longest(RULES_1B, w)
    ensures First(RULES_1B_TAIL, w) == Longest(RULES_1B_TAIL, w)
    ensures First(RULES_1C, w) == Longest(RULES_1C, w)
    ensures First(RULES_2, w) == Longest(RULES_2, w)
    ensures First(RULES_3, w) == Longest(RULES_3, w)
    ensures First(RULES_4, w) == Longest(RULES_4, w)
  {
    hide First, Longest, LongerFirst;
    Table1aLongerFirst();
    FirstIsLongest(RULES_1A, w);
    Table1bLongerFirst();
    FirstIsLongest(RULES_1B, w);
    Table1bTailLongerFirst();
    FirstIsLongest(RULES_1B_TAIL, w);
    Table1cLongerFirst();
    FirstIsLongest(RULES_1C, w);
    Table2LongerFirst();
    FirstIsLongest(RULES_2, w);
    Table3LongerFirst();
    FirstIsLongest(RULES_3, w);
    Table4LongerFirst();
    FirstIsLongest(RULES_4, w);
  }

  // ---------------------------------------------------------------- the steps

  function Step1a(w: Word): Word {
    Obey(RULES_1A, w)
  }

  // Only a removed "ed" or "ing" is followed by the tail.
  function Step1b(w: Word): Word {
    LongestMatches(RULES_1B, w);
    match Longest(RULES_1B, w)
    case None => w
    case Some(r) =>
      if Holds(r.condition, StemOf(r, w)) && r.suffix != "eed" then Step1bTail(StemOf(r, w))
      else Fire(r, w)
  }

  function Step1bTail(w: Word): Word {
    if Longest(RULES_1B_TAIL, w).Some? then Obey(RULES_1B_TAIL, w)
    else if DoubleC(w) && w[|w| - 1] !in "lsz" then w[..|w| - 1]
    else if Measure(w) == 1 && EndsCvc(w) then w + "e"
    else w
  }

  function Step1c(w: Word): Word {
    Obey(RULES_1C, w)
  }

  function Step2(w: Word): Word {
    Obey(RULES_2, w)
  }

  function Step3(w: Word): Word {
    Obey(RULES_3, w)
  }

  function Step4(w: Word): Word {
    Obey(RULES_4, w)
  }

  function Step5a(w: Word): Word {
    if !EndsWith(w, "e") then w
    else
      var stem := w[..|w| - 1];
      if Measure(stem) > 1 || (Measure(stem) == 1 && !EndsCvc(stem)) then stem else w
  }

  function Step5b(w: Word): Word {
    if Measure(w) > 1 && DoubleC(w) && EndsWith(w, "l") then w[..|w| - 1] else w
  }

  function Stem(w: Word): Word {
    if |w| <= 2 then w
    else Step5b(Step5a(Step4(Step3(Step2(Step1c(Step1b(Step1a(w))))))))
  }
}
