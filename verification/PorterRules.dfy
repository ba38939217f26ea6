/** The stemmer's rules one by one, for every stem they can follow, and words that need every step. */
module PorterRules {
  import opened Wrappers
  import opened PorterSpec
  import opened Porter

  // One of the last five letters is there in both and differs.
  predicate Clash(s: Word, t: Word) {
    || (|s| > 0 && |t| > 0 && FromEnd(s, 0) != FromEnd(t, 0))
    || (|s| > 1 && |t| > 1 && FromEnd(s, 1) != FromEnd(t, 1))
    || (|s| > 2 && |t| > 2 && FromEnd(s, 2) != FromEnd(t, 2))
    || (|s| > 3 && |t| > 3 && FromEnd(s, 3) != FromEnd(t, 3))
    || (|s| > 4 && |t| > 4 && FromEnd(s, 4) != FromEnd(t, 4))
  }

  lemma ClashIsNoSuffix(stem: Word, s: Word, t: Word)
    requires Clash(s, t)
    ensures !EndsWith(stem + t, s)
  {}

  lemma {:induction false} FirstRow(rules: seq<Rule>, w: Word, i: nat)
    requires i < |rules| && EndsWith(w, rules[i].suffix)
    requires forall j | 0 <= j < i :: !EndsWith(w, rules[j].suffix)
    ensures First(rules, w) == Some(rules[i])
  {
    if i > 0 {
      assert forall j | 0 <= j < i - 1 :: rules[1..][j] == rules[j + 1];
      FirstRow(rules[1..], w, i - 1);
    }
  }

  // A rule that no earlier one gets in the way of rewrites every stem that meets its condition.
  lemma RowFires(rules: seq<Rule>, stem: Word, i: nat)
    requires LongerFirst(rules) && i < |rules|
    requires forall j | 0 <= j < i :: Clash(rules[j].suffix, rules[i].suffix)
                                      || !EndsWith(stem + rules[i].suffix, rules[j].suffix)
    ensures Obey(rules, stem + rules[i].suffix) ==
            stem + if Holds(rules[i].condition, stem) then rules[i].replacement else rules[i].suffix
  {
    hide Clash, LongerFirst, Holds, Longest, First;
    var r, w := rules[i], stem + rules[i].suffix;
    forall j | 0 <= j < i ensures !EndsWith(w, rules[j].suffix) {
      if Clash(rules[j].suffix, r.suffix) {
        ClashIsNoSuffix(stem, rules[j].suffix, r.suffix);
      }
    }
    FirstRow(rules, w, i);
    FirstIsLongest(rules, w);
    assert StemOf(r, w) == stem;
  }

  // ---------------------------------------------------------------- letters and the small steps

  /** Every letter but a, e, i, o, u and y is a consonant; in a run of y the two kinds alternate, the first being a
      consonant at the start of the word and after a vowel. (The run is the letters from s to i, none if s is i + 1.) */
  lemma {:induction false} ConsonantIff(w: Word, s: nat, i: nat)
    requires s <= i + 1 <= |w| && (forall k | s <= k <= i :: w[k] == 'y') && (s == 0 || w[s - 1] != 'y')
    ensures IsC(w, i) <==> (((i + 1 - s) % 2 == 1) == (s == 0 || w[s - 1] in "aeiou"))
  {
    if s < i {
      ConsonantIff(w, s, i - 1);
    }
  }

  lemma PlainConsonant(w: Word, i: nat)
    requires i < |w| && w[i] != 'y'
    ensures IsC(w, i) <==> w[i] !in "aeiou"
  {}

  // Consonant, vowel, consonant other than w, x and y.
  predicate ShortEnd(w: Word) {
    && |w| >= 3 && IsC(w, |w| - 3) && !IsC(w, |w| - 2)
    && FromEnd(w, 0) !in "aeiou" && FromEnd(w, 0) !in "wxy"
  }

  lemma ShortEndIsCvc(w: Word)
    ensures ShortEnd(w) <==> EndsCvc(w)
  {
    hide IsC;
    if |w| >= 3 && w[|w| - 1] !in "wxy" {
      assert w[|w| - 1] != 'y';
      PlainConsonant(w, |w| - 1);
    }
  }

  /** What happens to a word that lost "ed" or "ing". */
  lemma TailRules(w: Word)
    ensures Step1bTail(w) ==
              if EndsWith(w, "at") || EndsWith(w, "bl") || EndsWith(w, "iz") then w + "e"
              else if |w| >= 2 && FromEnd(w, 0) == FromEnd(w, 1) && FromEnd(w, 0) !in "lsz" && IsC(w, |w| - 1)
              then w[..|w| - 1]
              else if Measure(w) == 1 && ShortEnd(w) then w + "e"
              else w
  {
    hide Step1bTail, Measure, Longest, Obey, EndsWith, IsC, EndsCvc, ShortEnd, DoubleC;
    First1bTail(w);
    ShortEndIsCvc(w);
    TailOfOthers(w);
    DoubleIs(w);
  }

  lemma TailOfOthers(w: Word)
    ensures Longest(RULES_1B_TAIL, w).None? ==>
              Step1bTail(w) == if DoubleC(w) && w[|w| - 1] !in "lsz" then w[..|w| - 1]
                               else if Measure(w) == 1 && EndsCvc(w) then w + "e"
                               else w
  {
    hide Measure, Longest, Obey, EndsWith, IsC, EndsCvc, DoubleC;
  }

  lemma DoubleIs(w: Word)
    ensures DoubleC(w) <==> |w| >= 2 && FromEnd(w, 0) == FromEnd(w, 1) && IsC(w, |w| - 1)
  {
    hide IsC;
  }

  /** The last step: an e goes after a stem of measure 2 or more, and after one of measure 1 without a short end; then
      one l of two at the end of a longer word. */
  lemma LastRules(stem: Word)
    ensures Step5a(stem + "e") ==
            if Measure(stem) > 1 || (Measure(stem) == 1 && !ShortEnd(stem)) then stem else stem + "e"
    ensures Step5b(stem + "ll") == if Measure(stem + "ll") > 1 then stem + "l" else stem + "ll"
  {
    hide Measure, EndsCvc, ShortEnd;
    ShortEndIsCvc(stem);
    assert (stem + "e")[..|stem|] == stem && (stem + "e")[|stem|..] == "e";
    EndsDoubleL(stem + "ll");
    assert (stem + "ll")[|stem|..] == "ll" && (stem + "ll")[..|stem| + 1] == stem + "l";
  }

  // ---------------------------------------------------------------- the tables of steps 2, 3 and 4

  // Which stems leave a rule the longest match of its table.
  predicate Free2(stem: Word, i: nat) {
    (i == 1 ==> !EndsWith(stem, "a")) && (i == 11 ==> !EndsWith(stem, "iz"))
  }

  predicate Free4(stem: Word, i: nat) {
    (i == 9 ==> !EndsWith(stem, "e")) && (i == 10 ==> !EndsWith(stem, "m"))
  }

  lemma Row2EarlyClashes(i: nat)
    requires i < 13 && i != 1 && i != 11
    ensures forall j | 0 <= j < i :: Clash(RULES_2[j].suffix, RULES_2[i].suffix)
  {}

  lemma Row2LateClashes(i: nat)
    requires 13 <= i < |RULES_2|
    ensures forall j | 0 <= j < i :: Clash(RULES_2[j].suffix, RULES_2[i].suffix)
  {}

  lemma AtionClashes(j: nat)
    requires j < 10
    ensures Clash(RULES_2[j].suffix, RULES_2[11].suffix)
  {}

  lemma Row3Clashes(i: nat, j: nat)
    requires j < i < |RULES_3|
    ensures Clash(RULES_3[j].suffix, RULES_3[i].suffix)
  {}

  lemma Row4EarlyClashes(i: nat, j: nat)
    requires j < i < 13
    ensures Clash(RULES_4[j].suffix, RULES_4[i].suffix) || (i == 9 && j == 8) || (i == 10 && 8 <= j)
  {}

  lemma Row4LateClashes(i: nat, j: nat)
    requires j < i && 13 <= i < |RULES_4|
    ensures Clash(RULES_4[j].suffix, RULES_4[i].suffix)
  {}

  lemma NotLonger(stem: Word, letters: Word, suffix: Word, longer: Word)
    requires !EndsWith(stem, letters) && longer == letters + suffix
    ensures !EndsWith(stem + suffix, longer)
  {
    if |stem| >= |letters| {
      var k := |stem| - |letters|;
      assert (stem + suffix)[k..] == stem[k..] + suffix;
      assert (stem[k..] + suffix)[..|letters|] == stem[k..] && (letters + suffix)[..|letters|] == letters;
    }
  }

  lemma EndsWithLast(stem: Word)
    requires EndsWith(stem, "em")
    ensures EndsWith(stem, "m")
  {
    assert stem[|stem| - 1..] == stem[|stem| - 2..][1..];
  }

  lemma Row2(stem: Word, i: nat)
    requires i < |RULES_2| && Free2(stem, i)
    ensures Step2(stem + RULES_2[i].suffix) ==
            stem + if Measure(stem) > 0 then RULES_2[i].replacement else RULES_2[i].suffix
  {
    hide Clash, LongerFirst, Measure, EndsWith, Obey;
    forall j | 0 <= j < i
      ensures Clash(RULES_2[j].suffix, RULES_2[i].suffix) || !EndsWith(stem + RULES_2[i].suffix, RULES_2[j].suffix)
    {
      if i == 1 {
        NotLonger(stem, "a", "tional", "ational");
      } else if i == 11 && j == 10 {
        NotLonger(stem, "iz", "ation", "ization");
      } else if i == 11 {
        AtionClashes(j);
      } else if i < 13 {
        Row2EarlyClashes(i);
      } else {
        Row2LateClashes(i);
      }
    }
    Table2LongerFirst();
    RowFires(RULES_2, stem, i);
  }

  lemma Row3(stem: Word, i: nat)
    requires i < |RULES_3|
    ensures Step3(stem + RULES_3[i].suffix) ==
            stem + if Measure(stem) > 0 then RULES_3[i].replacement else RULES_3[i].suffix
  {
    hide Clash, LongerFirst, Measure, EndsWith, Obey;
    forall j | 0 <= j < i ensures Clash(RULES_3[j].suffix, RULES_3[i].suffix) {
      Row3Clashes(i, j);
    }
    Table3LongerFirst();
    RowFires(RULES_3, stem, i);
  }

  lemma Row4(stem: Word, i: nat)
    requires i < |RULES_4| && Free4(stem, i)
    ensures Step4(stem + RULES_4[i].suffix) ==
            stem + if Measure(stem) > 1 && (i == 11 ==> EndsWith(stem, "s") || EndsWith(stem, "t"))
                   then "" else RULES_4[i].suffix
  {
    hide Clash, LongerFirst, Measure, EndsWith, Obey;
    forall j | 0 <= j < i
      ensures Clash(RULES_4[j].suffix, RULES_4[i].suffix) || !EndsWith(stem + RULES_4[i].suffix, RULES_4[j].suffix)
    {
      if i < 13 {
        Row4EarlyClashes(i, j);
      } else {
        Row4LateClashes(i, j);
      }
      if i == 9 {
        NotLonger(stem, "e", "ment", "ement");
      } else if i == 10 {
        NotLonger(stem, "m", "ent", "ment");
        if EndsWith(stem, "em") {
          EndsWithLast(stem);
        }
        NotLonger(stem, "em", "ent", "ement");
      }
    }
    Table4LongerFirst();
    RowFires(RULES_4, stem, i);
  }

  // A stem with a suffix, or with its replacement if the stem is long enough.
  function Replaced(stem: Word, over: nat, suffix: Word, replacement: Word): Word {
    stem + if Measure(stem) > over then replacement else suffix
  }

  /** The second step rule by rule, for every stem after which no longer suffix of the table matches. */
  lemma Step2Rules(stem: Word)
    ensures Step2(stem + "ational") == Replaced(stem, 0, "ational", "ate")
    ensures !EndsWith(stem, "a") ==> Step2(stem + "tional") == Replaced(stem, 0, "tional", "tion")
    ensures Step2(stem + "enci") == Replaced(stem, 0, "enci", "ence")
    ensures Step2(stem + "anci") == Replaced(stem, 0, "anci", "ance")
    ensures Step2(stem + "izer") == Replaced(stem, 0, "izer", "ize")
    ensures Step2(stem + "abli") == Replaced(stem, 0, "abli", "able")
    ensures Step2(stem + "alli") == Replaced(stem, 0, "alli", "al")
  {
    hide Step2, Measure, EndsWith, Holds;
    Row2(stem, 0);
    if !EndsWith(stem, "a") {
      Row2(stem, 1);
    }
    Row2(stem, 2);
    Row2(stem, 3);
    Row2(stem, 4);
    Row2(stem, 5);
    Row2(stem, 6);
  }

  /** The rest of that table. */
  lemma Step2LaterRules(stem: Word)
    ensures Step2(stem + "entli") == Replaced(stem, 0, "entli", "ent")
    ensures Step2(stem + "eli") == Replaced(stem, 0, "eli", "e")
    ensures Step2(stem + "ousli") == Replaced(stem, 0, "ousli", "ous")
    ensures Step2(stem + "ization") == Replaced(stem, 0, "ization", "ize")
    ensures !EndsWith(stem, "iz") ==> Step2(stem + "ation") == Replaced(stem, 0, "ation", "ate")
    ensures Step2(stem + "ator") == Replaced(stem, 0, "ator", "ate")
    ensures Step2(stem + "alism") == Replaced(stem, 0, "alism", "al")
    ensures Step2(stem + "iveness") == Replaced(stem, 0, "iveness", "ive")
    ensures Step2(stem + "fulness") == Replaced(stem, 0, "fulness", "ful")
    ensures Step2(stem + "ousness") == Replaced(stem, 0, "ousness", "ous")
    ensures Step2(stem + "aliti") == Replaced(stem, 0, "aliti", "al")
    ensures Step2(stem + "iviti") == Replaced(stem, 0, "iviti", "ive")
    ensures Step2(stem + "biliti") == Replaced(stem, 0, "biliti", "ble")
  {
    hide Step2, Measure, EndsWith, Holds;
    Row2(stem, 7);
    Row2(stem, 8);
    Row2(stem, 9);
    Row2(stem, 10);
    if !EndsWith(stem, "iz") {
      Row2(stem, 11);
    }
    Row2(stem, 12);
    Row2(stem, 13);
    Row2(stem, 14);
    Row2(stem, 15);
    Row2(stem, 16);
    Row2(stem, 17);
    Row2(stem, 18);
    Row2(stem, 19);
  }

  /** The third step rule by rule. */
  lemma Step3Rules(stem: Word)
    ensures Step3(stem + "icate") == Replaced(stem, 0, "icate", "ic")
    ensures Step3(stem + "ative") == Replaced(stem, 0, "ative", "")
    ensures Step3(stem + "alize") == Replaced(stem, 0, "alize", "al")
    ensures Step3(stem + "iciti") == Replaced(stem, 0, "iciti", "ic")
    ensures Step3(stem + "ical") == Replaced(stem, 0, "ical", "ic")
    ensures Step3(stem + "ful") == Replaced(stem, 0, "ful", "")
    ensures Step3(stem + "ness") == Replaced(stem, 0, "ness", "")
  {
    hide Step3, Measure, EndsWith, Holds;
    Row3(stem, 0);
    Row3(stem, 1);
    Row3(stem, 2);
    Row3(stem, 3);
    Row3(stem, 4);
    Row3(stem, 5);
    Row3(stem, 6);
  }

  /** The fourth step rule by rule, likewise. */
  lemma Step4Rules(stem: Word)
    ensures Step4(stem + "al") == Replaced(stem, 1, "al", "")
    ensures Step4(stem + "ance") == Replaced(stem, 1, "ance", "")
    ensures Step4(stem + "ence") == Replaced(stem, 1, "ence", "")
    ensures Step4(stem + "er") == Replaced(stem, 1, "er", "")
    ensures Step4(stem + "ic") == Replaced(stem, 1, "ic", "")
    ensures Step4(stem + "able") == Replaced(stem, 1, "able", "")
    ensures Step4(stem + "ible") == Replaced(stem, 1, "ible", "")
    ensures Step4(stem + "ant") == Replaced(stem, 1, "ant", "")
    ensures Step4(stem + "ement") == Replaced(stem, 1, "ement", "")
    ensures !EndsWith(stem, "e") ==> Step4(stem + "ment") == Replaced(stem, 1, "ment", "")
  {
    hide Step4, Measure, EndsWith, Holds;
    Row4(stem, 0);
    Row4(stem, 1);
    Row4(stem, 2);
    Row4(stem, 3);
    Row4(stem, 4);
    Row4(stem, 5);
    Row4(stem, 6);
    Row4(stem, 7);
    Row4(stem, 8);
    if !EndsWith(stem, "e") {
      Row4(stem, 9);
    }
  }

  /** The rest of that table; "ion" goes only after s or t. */
  lemma Step4LaterRules(stem: Word)
    ensures !EndsWith(stem, "m") ==> Step4(stem + "ent") == Replaced(stem, 1, "ent", "")
    ensures EndsWith(stem, "s") || EndsWith(stem, "t") ==>
              Step4(stem + "ion") == Replaced(stem, 1, "ion", "")
    ensures !EndsWith(stem, "s") && !EndsWith(stem, "t") ==> Step4(stem + "ion") == stem + "ion"
    ensures Step4(stem + "ou") == Replaced(stem, 1, "ou", "")
    ensures Step4(stem + "ism") == Replaced(stem, 1, "ism", "")
    ensures Step4(stem + "ate") == Replaced(stem, 1, "ate", "")
    ensures Step4(stem + "iti") == Replaced(stem, 1, "iti", "")
    ensures Step4(stem + "ous") == Replaced(stem, 1, "ous", "")
    ensures Step4(stem + "ive") == Replaced(stem, 1, "ive", "")
    ensures Step4(stem + "ize") == Replaced(stem, 1, "ize", "")
  {
    hide Step4, Measure, EndsWith, Holds;
    if !EndsWith(stem, "m") {
      Row4(stem, 10);
    }
    Row4(stem, 11);
    Row4(stem, 12);
    Row4(stem, 13);
    Row4(stem, 14);
    Row4(stem, 15);
    Row4(stem, 16);
    Row4(stem, 17);
    Row4(stem, 18);
  }

  // ---------------------------------------------------------------- words that need every step

  // The ends of the suffixes in a table.
  lemma Row2Ends(i: nat)
    requires i < |RULES_2|
    ensures var s := RULES_2[i].suffix;
            |s| >= 2 && FromEnd(s, 0) in "lirnms" && (FromEnd(s, 0) == 'i' ==> FromEnd(s, 1) in "clt")
  {}

  lemma Row3Ends(i: nat)
    requires i < |RULES_3|
    ensures var s := RULES_3[i].suffix;
            && |s| >= 2 && FromEnd(s, 0) in "eils" && (FromEnd(s, 0) == 'i' ==> FromEnd(s, 1) == 't')
            && (FromEnd(s, 0) == 'e' && FromEnd(s, 1) == 't' ==> |s| >= 4 && FromEnd(s, 3) == 'c')
  {}

  lemma Row4Ends(i: nat)
    requires i < |RULES_4|
    ensures var s := RULES_4[i].suffix;
            |s| >= 2 && FromEnd(s, 0) != 'p' && (FromEnd(s, 0) == 'i' ==> FromEnd(s, 1) == 't')
  {}

  lemma SameEnds(w: Word, s: Word, k: nat)
    requires EndsWith(w, s) && k < |s|
    ensures FromEnd(w, k) == FromEnd(s, k)
  {
    assert w[|w| - |s|..][|s| - 1 - k] == s[|s| - 1 - k];
  }

  // The row that matches, when one does.
  lemma Matching(rules: seq<Rule>, w: Word) returns (i: nat)
    requires LongerFirst(rules) && Obey(rules, w) != w
    ensures i < |rules| && EndsWith(w, rules[i].suffix)
    ensures forall k | 0 <= k < |rules[i].suffix| :: FromEnd(w, k) == FromEnd(rules[i].suffix, k)
  {
    hide FromEnd;
    LongestMatches(rules, w);
    var r := Longest(rules, w).value;
    i :| 0 <= i < |rules| && rules[i] == r;
    forall k | 0 <= k < |r.suffix| ensures FromEnd(w, k) == FromEnd(r.suffix, k) {
      SameEnds(w, r.suffix, k);
    }
  }

  lemma Plain2(w: Word)
    requires FromEnd(w, 0) !in "lirnms" || (FromEnd(w, 0) == 'i' && FromEnd(w, 1) !in "clt")
    ensures Step2(w) == w
  {
    hide Obey, FromEnd, EndsWith, LongerFirst;
    Table2LongerFirst();
    if Step2(w) != w {
      var i := Matching(RULES_2, w);
      Row2Ends(i);
      assert false;
    }
  }

  lemma Plain3(w: Word)
    requires FromEnd(w, 0) !in "eils" || (FromEnd(w, 0) == 'i' && FromEnd(w, 1) != 't')
             || (FromEnd(w, 0) == 'e' && FromEnd(w, 1) == 't' && FromEnd(w, 3) != 'c')
    ensures Step3(w) == w
  {
    hide Obey, FromEnd, EndsWith, LongerFirst;
    Table3LongerFirst();
    if Step3(w) != w {
      var i := Matching(RULES_3, w);
      Row3Ends(i);
      assert false;
    }
  }

  lemma Plain4(w: Word)
    requires FromEnd(w, 0) == 'p' || (FromEnd(w, 0) == 'i' && FromEnd(w, 1) != 't')
    ensures Step4(w) == w
  {
    hide Obey, FromEnd, EndsWith, LongerFirst;
    Table4LongerFirst();
    if Step4(w) != w {
      var i := Matching(RULES_4, w);
      Row4Ends(i);
      assert false;
    }
  }

  lemma Plain1(w: Word)
    requires |w| > 0 && w[|w| - 1] !in "sdgy"
    ensures Step1a(w) == w && Step1b(w) == w && Step1c(w) == w
  {
    First1a(w);
    First1b(w);
    First1c(w);
  }

  lemma LastTwo(w: Word, s: Word)
    requires |s| >= 2 && EndsWith(w, s)
    ensures w[|w| - 2] == s[|s| - 2]
  {
    assert w[|w| - |s|..][|s| - 2] == s[|s| - 2];
  }

  lemma Plural1(w: Word)
    requires |w| > 0 && w[|w| - 1] !in "sdgye"
    ensures Step1c(Step1b(Step1a(w + "s"))) == w
  {
    hide Step1b, Step1c, Step1a;
    var v := w + "s";
    First1a(v);
    assert !EndsWith(v, "sses") && !EndsWith(v, "ies") && !EndsWith(v, "ss") by {
      if EndsWith(v, "sses") {
        LastTwo(v, "sses");
      } else if EndsWith(v, "ies") {
        LastTwo(v, "ies");
      } else if EndsWith(v, "ss") {
        LastTwo(v, "ss");
      }
    }
    assert v[..|v| - 1] == w && v[|v| - 1..] == "s";
    Plain1(w);
  }

  lemma Plain5(w: Word)
    requires |w| > 0 && w[|w| - 1] !in "el"
    ensures Step5a(w) == w && Step5b(w) == w
  {}

  lemma MeasuresOfStems()
    ensures Measure("general") == 3 && Measure("gener") == 2
  {}

  lemma MeasuresOfOthers()
    ensures Measure("oscill") == 2
    ensures Measure("prob") == 1
  {}

  lemma MeasureOfDeploy()
    ensures Measure("deploy") == 2
  {
    hide Transitions;
    assert !IsC("deploy", 1) && !IsC("deploy", 4);
    assert Flags("deploy") == [true, false, true] + [true, false, true];
    TransitionsConcat([true, false, true], [true, false, true]);
    assert Transitions([true, false, true]) == 1 by {
      OneBlock();
    }
  }

  lemma OneBlock()
    ensures Transitions([true, false, true]) == 1
  {}

  lemma MeasureOfProbat()
    ensures Measure("probat") == 2
  {
    assert "probat"[..4] == "prob";
    assert Flags("probat") == Flags("prob") + [false, true] by {
      FlagsOnPrefix("probat", 4);
    }
    MeasuresOfOthers();
    TransitionsConcat(Flags("prob"), [false, true]);
  }

  /** Needs steps 1a, 2, 3 and 4, in this order. */
  lemma StemsGeneralizations()
    ensures Stem("generalizations") == "gener"
  {
    hide Step1a, Step1b, Step1c, Step2, Step3, Step4, Measure, EndsWith;
    Plural1("generalization");
    assert "generalization" + "s" == "generalizations";
    MeasuresOfStems();
    Row2("general", 10);
    assert "general" + "ization" == "generalization" && "general" + "ize" == "generalize";
    Row3("gener", 2);
    assert "gener" + "alize" == "generalize" && "gener" + "al" == "general";
    Row4("gener", 0);
    assert "gener" + "" == "gener";
    Plain5("gener");
  }

  /** Needs steps 1a, 2, 4 and 5b. */
  lemma StemsOscillators()
    ensures Stem("oscillators") == "oscil"
  {
    hide Step1a, Step1b, Step1c, Step2, Step3, Step4, Measure, EndsWith;
    Plural1("oscillator");
    assert "oscillator" + "s" == "oscillators";
    MeasuresOfOthers();
    Row2("oscill", 12);
    assert "oscill" + "ator" == "oscillator" && "oscill" + "ate" == "oscillate";
    Plain3("oscillate");
    Row4("oscill", 14);
    assert "oscill" + "" == "oscill";
    EndsIn("oscill", "e");
    EndsIn("oscill", "l");
    assert "oscill"[..5] == "oscil";
  }

  lemma EndsIn(w: Word, s: Word)
    requires |s| == 1 && |w| > 0
    ensures EndsWith(w, s) <==> w[|w| - 1] == s[0]
  {
    assert w[|w| - 1..] == [w[|w| - 1]];
  }

  /** Needs step 5a. */
  lemma StemsProbate()
    ensures Stem("probate") == "probat"
  {
    hide Step1a, Step1b, Step1c, Step2, Step3, Step4, Measure, EndsWith;
    Plain1("probate");
    MeasuresOfOthers();
    MeasureOfProbat();
    Plain2("probate");
    Plain3("probate");
    Row4("prob", 14);
    assert "prob" + "ate" == "probate";
    EndsIn("probate", "e");
    EndsIn("probat", "l");
    assert "probate"[..6] == "probat";
  }

  /** The word that the program's own comment says is kept: its stem has measure 2, so step 4 drops the suffix. */
  lemma StemsDeployment()
    ensures Measure("deploy") == 2 && Stem("deployment") == "deploy"
  {
    hide Step1a, Step1b, Step1c, Step2, Step3, Step4, Measure, EndsWith;
    Plain1("deployment");
    MeasureOfDeploy();
    Plain2("deployment");
    Plain3("deployment");
    EndsIn("deploy", "e");
    Row4("deploy", 9);
    assert "deploy" + "ment" == "deployment" && "deploy" + "" == "deploy";
    Plain5("deploy");
  }

  lemma HoppingLosesIng()
    ensures Step1b("hopping") == "hop"
  {
    hide Measure, Step1b, Step1bTail, HasVowel, Longest, Obey;
    First1b("hopping");
    assert "hopping"[..4] == "hopp" && "hopping"[4..] == "ing" && "hopping"[5..] == "ng" && "hopping"[4..] != "eed";
    VowelInHopp();
    HoppDoubled();
  }

  lemma VowelInHopp()
    ensures HasVowel("hopp")
  {
    assert !IsC("hopp", 1);
  }

  lemma HoppDoubled()
    ensures Step1bTail("hopp") == "hop"
  {
    hide Measure, Longest, Obey;
    First1bTail("hopp");
    assert "hopp"[..3] == "hop";
  }

  /** Needs step 1b and its tail. */
  lemma StemsHopping()
    ensures Stem("hopping") == "hop"
  {
    hide Step1b, Step2, Step3, Step4, Measure;
    First1a("hopping");
    HoppingLosesIng();
    First1c("hop");
    Plain2("hop");
    Plain3("hop");
    Plain4("hop");
    Plain5("hop");
  }

  lemma HappyTurnsI()
    ensures Step1c("happy") == "happi"
  {
    hide Obey;
    First1c("happy");
    assert HasVowel("happ") by {
      assert !IsC("happ", 1);
    }
    assert "happy"[..4] == "happ" && "happ" + "i" == "happi" && "happy"[4..] == "y";
  }

  /** Needs step 1c. */
  lemma StemsHappy()
    ensures Stem("happy") == "happi"
  {
    hide Step1b, Step1c, Step2, Step3, Step4, Measure;
    First1a("happy");
    First1b("happy");
    HappyTurnsI();
    Plain2("happi");
    Plain3("happi");
    Plain4("happi");
    Plain5("happi");
  }
}
