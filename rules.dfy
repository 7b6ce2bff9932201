/** Ordered keyword tables: the suit of a card from its name and the Solfeggio frequency of a
    ray. Each is a chain of `if "word" in text: return value` tests, modelled as a list of
    rules where the first rule with a keyword in the (lower-cased) text decides. */
module Rules {
  import opened Text

  /** Fires when any of `keywords` occurs in the text. */
  datatype Rule<T> = Rule(keywords: seq<string>, value: T)

  predicate Fires<T>(rule: Rule<T>, s: string)
  {
    exists k :: 0 <= k < |rule.keywords| && Contains(s, rule.keywords[k])
  }

  /** Rule `i` is the first one that fires on `s`. */
  predicate FirstFiring<T>(rules: seq<Rule<T>>, s: string, i: nat)
  {
    i < |rules| && Fires(rules[i], s) && forall j :: 0 <= j < i ==> !Fires(rules[j], s)
  }

  /** The value of the first rule that fires, or `fallback` when none does. */
  function FirstMatch<T>(rules: seq<Rule<T>>, s: string, fallback: T): (r: T)
    ensures r == fallback || exists i :: 0 <= i < |rules| && r == rules[i].value
  {
    if rules == [] then fallback
    else if Fires(rules[0], s) then rules[0].value
    else FirstMatch(rules[1..], s, fallback)
  }

  /** The first rule that fires decides, whatever later rules would say. */
  lemma {:induction false} FirstMatchFirstFiring<T>(rules: seq<Rule<T>>, s: string, fallback: T, i: nat)
    requires FirstFiring(rules, s, i)
    ensures FirstMatch(rules, s, fallback) == rules[i].value
    decreases i
  {
    if i > 0 {
      assert !Fires(rules[0], s);
      assert FirstFiring(rules[1..], s, i - 1) by {
        forall j | 0 <= j < i - 1 ensures !Fires(rules[1..][j], s) {
          assert rules[1..][j] == rules[j + 1];
        }
      }
      FirstMatchFirstFiring(rules[1..], s, fallback, i - 1);
    }
  }

  /** When no rule fires the fallback is the answer. */
  lemma {:induction false} FirstMatchNoneFires<T>(rules: seq<Rule<T>>, s: string, fallback: T)
    requires forall i :: 0 <= i < |rules| ==> !Fires(rules[i], s)
    ensures FirstMatch(rules, s, fallback) == fallback
    decreases |rules|
  {
    if rules != [] {
      assert !Fires(rules[0], s);
      assert forall i :: 0 <= i < |rules| - 1 ==> rules[1..][i] == rules[i + 1];
      FirstMatchNoneFires(rules[1..], s, fallback);
    }
  }

  /** Either some rule fires first and gives the answer, or none fires and the fallback does. */
  lemma {:induction false} FirstMatchCases<T>(rules: seq<Rule<T>>, s: string, fallback: T)
    ensures || (exists i: nat :: FirstFiring(rules, s, i) && FirstMatch(rules, s, fallback) == rules[i].value)
            || ((forall i :: 0 <= i < |rules| ==> !Fires(rules[i], s)) && FirstMatch(rules, s, fallback) == fallback)
  {
    if forall i :: 0 <= i < |rules| ==> !Fires(rules[i], s) {
      FirstMatchNoneFires(rules, s, fallback);
    } else {
      var i :| 0 <= i < |rules| && Fires(rules[i], s);
      var f := FirstOf(rules, s, i);
      FirstMatchFirstFiring(rules, s, fallback, f);
    }
  }

  /** Some rule up to `i` fires first. */
  lemma {:induction false} FirstOf<T>(rules: seq<Rule<T>>, s: string, i: nat) returns (f: nat)
    requires i < |rules| && Fires(rules[i], s)
    ensures f <= i && FirstFiring(rules, s, f)
    decreases i
  {
    if exists j :: 0 <= j < i && Fires(rules[j], s) {
      var j :| 0 <= j < i && Fires(rules[j], s);
      f := FirstOf(rules, s, j);
    } else {
      f := i;
    }
  }

  /** One step of the table: the first rule, or the rest of the table when it does not fire. */
  lemma {:induction false} FirstMatchUnfold<T>(rules: seq<Rule<T>>, s: string, fallback: T)
    requires rules != []
    ensures FirstMatch(rules, s, fallback)
      == if Fires(rules[0], s) then rules[0].value else FirstMatch(rules[1..], s, fallback)
  {
  }

  lemma {:induction false} FiresOne<T>(w: string, v: T, s: string)
    ensures Fires(Rule([w], v), s) == Contains(s, w)
  {
    if Contains(s, w) {
      assert Rule([w], v).keywords[0] == w;
    }
  }

  lemma {:induction false} FiresTwo<T>(w1: string, w2: string, v: T, s: string)
    ensures Fires(Rule([w1, w2], v), s) == (Contains(s, w1) || Contains(s, w2))
  {
    var keys := [w1, w2];
    if Contains(s, w1) { assert keys[0] == w1; }
    if Contains(s, w2) { assert keys[1] == w2; }
  }

  lemma {:induction false} FiresFive<T>(w1: string, w2: string, w3: string, w4: string, w5: string, v: T, s: string)
    ensures Fires(Rule([w1, w2, w3, w4, w5], v), s)
      == (Contains(s, w1) || Contains(s, w2) || Contains(s, w3) || Contains(s, w4) || Contains(s, w5))
  {
    var keys := [w1, w2, w3, w4, w5];
    if Contains(s, w1) { assert keys[0] == w1; }
    if Contains(s, w2) { assert keys[1] == w2; }
    if Contains(s, w3) { assert keys[2] == w3; }
    if Contains(s, w4) { assert keys[3] == w4; }
    if Contains(s, w5) { assert keys[4] == w5; }
  }

  // ---------------------------------------------------------------- suit

  const SuitRules: seq<Rule<string>> := [
    Rule(["wands"], "wands"),
    Rule(["cups"], "cups"),
    Rule(["pentacles", "coin"], "pentacles"),
    Rule(["swords", "blade"], "swords")
  ]

  /** The suit a card name belongs to; names with no suit word are major arcana. */
  function Suit(name: string): (r: string)
    ensures r in {"wands", "cups", "pentacles", "swords", "majors"}
  {
    FirstMatch(SuitRules, Lower(name), "majors")
  }

  /** The suit table read as the chain of tests it stands for: `wands`, then `cups`, then
      `pentacles` or `coin`, then `swords` or `blade`, else a major arcanum. */
  lemma {:induction false} SuitChain(name: string)
    ensures var s := Lower(name);
      Suit(name) == if Contains(s, "wands") then "wands"
        else if Contains(s, "cups") then "cups"
        else if Contains(s, "pentacles") || Contains(s, "coin") then "pentacles"
        else if Contains(s, "swords") || Contains(s, "blade") then "swords"
        else "majors"
  {
    var s := Lower(name);
    var r := SuitRules;
    FirstMatchUnfold(r, s, "majors");
    FiresOne("wands", "wands", s);
    FirstMatchUnfold(r[1..], s, "majors");
    FiresOne("cups", "cups", s);
    assert r[1..][1..] == r[2..];
    FirstMatchUnfold(r[2..], s, "majors");
    FiresTwo("pentacles", "coin", "pentacles", s);
    assert r[2..][1..] == r[3..];
    FirstMatchUnfold(r[3..], s, "majors");
    FiresTwo("swords", "blade", "swords", s);
    assert r[3..][1..] == [];
  }

  /** A name is a major arcanum exactly when it holds none of the six suit words, in any case. */
  lemma {:induction false} SuitMajors(name: string)
    ensures Suit(name) == "majors" <==>
      forall w :: w in ["wands", "cups", "pentacles", "coin", "swords", "blade"] ==> !Contains(Lower(name), w)
  {
    SuitChain(name);
  }

  // ---------------------------------------------------------------- frequency

  const FreqRules: seq<Rule<nat>> := [
    Rule(["violet"], 963),
    Rule(["indigo", "silver"], 852),
    Rule(["gold", "emerald", "green", "aquamarine", "turquoise"], 528),
    Rule(["crimson"], 417),
    Rule(["scarlet", "red"], 285)
  ]

  /** The Solfeggio frequency (Hz) of a ray descriptor; 432 when no colour word is present. */
  function MapFreq(ray: string): (hz: nat)
    ensures hz in {963, 852, 528, 417, 285, 432}
  {
    FirstMatch(FreqRules, Lower(ray), 432)
  }

  /** The last three rules of the frequency table as a chain of tests. */
  lemma {:induction false} FreqTailChain(s: string)
    ensures FirstMatch(FreqRules[2..], s, 432)
      == if Contains(s, "gold") || Contains(s, "emerald") || Contains(s, "green")
          || Contains(s, "aquamarine") || Contains(s, "turquoise") then 528
        else if Contains(s, "crimson") then 417
        else if Contains(s, "scarlet") || Contains(s, "red") then 285
        else 432
  {
    var r := FreqRules[2..];
    FirstMatchUnfold(r, s, 432);
    FiresFive("gold", "emerald", "green", "aquamarine", "turquoise", 528, s);
    FirstMatchUnfold(r[1..], s, 432);
    FiresOne("crimson", 417, s);
    assert r[1..][1..] == r[2..];
    FirstMatchUnfold(r[2..], s, 432);
    FiresTwo("scarlet", "red", 285, s);
    assert r[2..][1..] == [];
  }

  /** The frequency table read as the chain of tests it stands for, in the order written. */
  lemma {:induction false} MapFreqChain(ray: string)
    ensures var s := Lower(ray);
      MapFreq(ray) == if Contains(s, "violet") then 963
        else if Contains(s, "indigo") || Contains(s, "silver") then 852
        else if Contains(s, "gold") || Contains(s, "emerald") || Contains(s, "green")
          || Contains(s, "aquamarine") || Contains(s, "turquoise") then 528
        else if Contains(s, "crimson") then 417
        else if Contains(s, "scarlet") || Contains(s, "red") then 285
        else 432
  {
    var s := Lower(ray);
    var r := FreqRules;
    FirstMatchUnfold(r, s, 432);
    FiresOne("violet", 963, s);
    FirstMatchUnfold(r[1..], s, 432);
    FiresTwo("indigo", "silver", 852, s);
    assert r[1..][1..] == r[2..];
    FreqTailChain(s);
  }

  const FreqWords: seq<string> :=
    ["violet", "indigo", "silver", "gold", "emerald", "green", "aquamarine", "turquoise", "crimson", "scarlet", "red"]

  /** None of the colour words occurs in `s`. */
  predicate NoColourWord(s: string)
  {
    forall w :: w in FreqWords ==> !Contains(s, w)
  }

  lemma {:induction false} NoColourWordCases(s: string)
    ensures NoColourWord(s) <==>
      !(Contains(s, "violet") || Contains(s, "indigo") || Contains(s, "silver")
        || Contains(s, "gold") || Contains(s, "emerald") || Contains(s, "green")
        || Contains(s, "aquamarine") || Contains(s, "turquoise") || Contains(s, "crimson")
        || Contains(s, "scarlet") || Contains(s, "red"))
  {
    if !NoColourWord(s) {
      var w :| w in FreqWords && Contains(s, w);
    }
  }

  /** The default 432 Hz is given exactly when no colour word occurs. */
  lemma {:induction false} MapFreqDefault(ray: string)
    ensures MapFreq(ray) == 432 <==> NoColourWord(Lower(ray))
  {
    MapFreqChain(ray);
    NoColourWordCases(Lower(ray));
  }

  // ---------------------------------------------------------------- examples

  lemma {:induction false} SuitOfQueenOfCoins()
    ensures Suit("Queen of Coins") == "pentacles"
  {
    var q := Lower("Queen of Coins");
    assert q == "queen of coins";
    NotContainsChar(q, "wands", 'w');
    NotContainsChar(q, "cups", 'p');
    assert q[9..13] == "coin" by {
      assert q[9] == 'c' && q[10] == 'o' && q[11] == 'i' && q[12] == 'n';
    }
    assert OccursAt(q, "coin", 9);
    SuitChain("Queen of Coins");
  }

  lemma {:induction false} BladeDancerWords(b: string)
    requires b == "blade dancer"
    ensures !Contains(b, "wands") && !Contains(b, "cups") && !Contains(b, "pentacles")
    ensures !Contains(b, "coin") && !Contains(b, "swords") && Contains(b, "blade")
  {
    NotContainsChar(b, "wands", 'w');
    NotContainsChar(b, "cups", 'u');
    NotContainsChar(b, "pentacles", 'p');
    NotContainsChar(b, "coin", 'o');
    NotContainsChar(b, "swords", 'w');
    assert OccursAt(b, "blade", 0);
  }

  lemma {:induction false} SuitOfBladeDancer()
    ensures Suit("Blade Dancer") == "swords"
  {
    assert Lower("Blade Dancer") == "blade dancer";
    BladeDancerWords(Lower("Blade Dancer"));
    SuitChain("Blade Dancer");
  }

  lemma {:induction false} SuitOfTheFool()
    ensures Suit("The Fool") == "majors"
  {
    var f := Lower("The Fool");
    assert f == "the fool";
    NotContainsChar(f, "wands", 'w');
    NotContainsChar(f, "cups", 'c');
    NotContainsChar(f, "pentacles", 'p');
    NotContainsChar(f, "coin", 'c');
    NotContainsChar(f, "swords", 'w');
    NotContainsChar(f, "blade", 'b');
    SuitChain("The Fool");
  }

  /** A ray naming two colours takes the frequency of the earlier rule, not the earlier word. */
  lemma {:induction false} MapFreqPrecedence()
    ensures MapFreq("emerald and silver") == 852
  {
    var s := "emerald and silver";
    SilverWords(s);
    MapFreqChain(s);
  }

  lemma {:induction false} SilverWords(s: string)
    requires s == "emerald and silver"
    ensures Lower(s) == s && !Contains(s, "violet") && OccursAt(s, "silver", 12)
  {
    NotContainsChar(s, "violet", 'o');
    assert s[12..18] == "silver";
  }

  /** With none of the letters `g`, `l` and `r` no colour word can occur: the default. */
  lemma {:induction false} MapFreqWithoutLetters(ray: string)
    requires 'g' !in Lower(ray) && 'l' !in Lower(ray) && 'r' !in Lower(ray)
    ensures MapFreq(ray) == 432
  {
    var s := Lower(ray);
    NotContainsChar(s, "violet", 'l');
    NotContainsChar(s, "indigo", 'g');
    NotContainsChar(s, "silver", 'r');
    NotContainsChar(s, "gold", 'g');
    NotContainsChar(s, "emerald", 'r');
    NotContainsChar(s, "green", 'r');
    NotContainsChar(s, "aquamarine", 'r');
    NotContainsChar(s, "turquoise", 'r');
    NotContainsChar(s, "crimson", 'r');
    NotContainsChar(s, "scarlet", 'r');
    NotContainsChar(s, "red", 'r');
    MapFreqChain(ray);
  }

  lemma {:induction false} MapFreqNoColour()
    ensures MapFreq("unknown hue") == 432
  {
    assert Lower("unknown hue") == "unknown hue";
    MapFreqWithoutLetters("unknown hue");
  }
}
