/**
 * Facts about individual rules of the catalogue: what the lookaround guards
 * protect, which rules can never fire, and where rules repeat.
 */
module CatalogueFacts {
  import opened Wrappers
  import opened Chars
  import opened Rewrite
  import opened Patterns
  import opened Rules
  import opened SourceRules

  /**
   * The catalogue holds 529 substitutions and, in this order, the removals
   * "OBSCIS", "MO Suffix" and "Statute Prefix".
   */
  lemma CatalogueShape()
    ensures |SourceCatalogue.substitutions| == 529
    ensures SourceCatalogue.removals == [Obscis, MoSuffix, StatutePrefix]
    ensures SourceCatalogue.removals[0].description == "OBSCIS"
    ensures SourceCatalogue.removals[1].description == "MO Suffix"
    ensures SourceCatalogue.removals[2].description == "Statute Prefix"
  {
  }

  /** The "illegal" rule leaves the `ill` of `mentally ill` alone. */
  lemma IllegalSparesMentallyIll(o: Oracle)
    ensures Substitute(Illegal, o, "mentally ill") == "mentally ill"
  {
    var s := "mentally ill";
    var m := MatcherOf(Illegal.pattern, o);
    forall q | 0 <= q < |s|
      ensures !Hits(m, s, q)
    {
      if q == 9 {
        assert PrecededBy(s, q, "mentally ");
      } else if q == 0 || q == 8 {
        assert !SpellsAt(Lit("ill"), s, q);
        assert !SpellsAt(Lit("illeg"), s, q);
        assert !SpellsAt(Lit("illgl"), s, q);
      } else {
        assert !BoundaryAt(s, q);
      }
    }
    NoHitFrom(m, _ => Illegal.replacement, s, 0);
  }

  /** `w` stands at `i` as a whole word, ignoring case. */
  predicate WholeWordAt(w: string, s: string, i: nat)
    requires |w| > 0
  {
    i + |w| <= |s| && SpellsAt(Lit(w), s, i) && BoundaryAt(s, i) && BoundaryAt(s, i + |w|)
  }

  /**
   * The "illegal" rule matches the three letters `ill` at `i` exactly when
   * they form a whole word, in any case, that `mentally ` does not precede.
   */
  lemma IllegalMatchesIll(o: Oracle, s: string, i: nat)
    requires i <= |s|
    ensures MatchAt(Illegal.pattern, o, s, i) == Some(3)
        <==> WholeWordAt("ill", s, i) && !PrecededBy(s, i, "mentally ")
  {
    var p := Illegal.pattern;
    assert |p.alternatives[1]| == 5 && |p.alternatives[2]| == 5;
    if WholeWordAt("ill", s, i) && !PrecededBy(s, i, "mentally ") {
      assert Fits(p, 0, s, i);
    }
  }

  /** For example, `an ILL` becomes `an illegal`. */
  lemma IllegalRewritesIll(o: Oracle)
    ensures Substitute(Illegal, o, "an ILL") == "an illegal"
  {
    var s := "an ILL";
    var m := MatcherOf(Illegal.pattern, o);
    assert SpellsAt(Lit("ill"), s, 3);
    assert Fits(Illegal.pattern, 0, s, 3);
    assert MatchAt(Illegal.pattern, o, s, 3) == Some(3);
    forall q | 0 <= q < 3
      ensures !Hits(m, s, q)
    {
      if q != 0 {
        assert !SpellsAt(Lit("ill"), s, q);
        assert !SpellsAt(Lit("illeg"), s, q);
        assert !SpellsAt(Lit("illgl"), s, q);
      }
    }
    LeftmostHit(m, _ => Illegal.replacement, s, 0, 3);
  }

  /** "Attempted 2" leaves the `at` of `at risk` alone ... */
  lemma AttemptedSparesAtRisk(o: Oracle)
    ensures Substitute(Attempted2, o, "at risk") == "at risk"
  {
    var s := "at risk";
    var m := MatcherOf(Attempted2.pattern, o);
    forall q | 0 <= q < |s|
      ensures !Hits(m, s, q)
    {
      if q == 0 {
        assert FollowedBy(s, 2, " risk");
      } else if q == 2 || q == 3 {
        assert !SpellsAt(Lit("at"), s, q);
      } else {
        assert !BoundaryAt(s, q);
      }
    }
  }

  /**
   * "Attempted 2" matches at `i` exactly when the whole word `at` stands
   * there and ` risk` does not follow it. The lookahead has no `\b` of its
   * own, so `at risky` and `at risks` are spared too.
   */
  lemma AttemptedMatchesAt(o: Oracle, s: string, i: nat)
    requires i <= |s|
    ensures MatchAt(Attempted2.pattern, o, s, i)
         == if WholeWordAt("at", s, i) && !FollowedBy(s, i + 2, " risk") then Some(2) else None
  {
    if WholeWordAt("at", s, i) && !FollowedBy(s, i + 2, " risk") {
      assert Fits(Attempted2.pattern, 0, s, i);
    }
  }

  /** `at risky` is left alone as well: the lookahead is a plain prefix test. */
  lemma AttemptedSparesAtRisky(o: Oracle)
    ensures Substitute(Attempted2, o, "at risky") == "at risky"
  {
    AttemptedNoHitInRisky(o);
  }

  lemma AttemptedNoHitInRisky(o: Oracle)
    ensures forall q :: 0 <= q < |"at risky"| ==> !Hits(MatcherOf(Attempted2.pattern, o), "at risky", q)
  {
    var s := "at risky";
    forall q | 0 <= q < |s|
      ensures !Hits(MatcherOf(Attempted2.pattern, o), s, q)
    {
      AttemptedMatchesAt(o, s, q);
      if q == 0 {
        assert FollowedBy(s, 2, " risk");
      } else if q == 2 || q == 3 {
        assert !SpellsAt(Lit("at"), s, q);
      } else {
        assert !BoundaryAt(s, q);
      }
    }
  }

  /** For example, `at rob` becomes `attempted rob`. */
  lemma AttemptedRewritesAt(o: Oracle)
    ensures Substitute(Attempted2, o, "at rob") == "attempted rob"
  {
    var s := "at rob";
    var m := MatcherOf(Attempted2.pattern, o);
    assert !FollowedBy(s, 2, " risk") by {
      assert 2 + |" risk"| > |s|;
    }
    assert SpellsAt(Lit("at"), s, 0);
    assert MatchAt(Attempted2.pattern, o, s, 0) == Some(2);
    LeftmostHit(m, _ => Attempted2.replacement, s, 0, 0);
    AttemptedNoHitInRob(o);
    NoHitFrom(m, _ => Attempted2.replacement, s, 2);
  }

  lemma AttemptedNoHitInRob(o: Oracle)
    ensures forall q :: 2 <= q < |"at rob"| ==> !Hits(MatcherOf(Attempted2.pattern, o), "at rob", q)
  {
    var s := "at rob";
    forall q | 2 <= q < |s|
      ensures !Hits(MatcherOf(Attempted2.pattern, o), s, q)
    {
      if q == 2 || q == 3 {
        assert !SpellsAt(Lit("at"), s, q);
      } else {
        assert !BoundaryAt(s, q);
      }
    }
  }

  /** The "offense" rule leaves `off` alone after `by `. */
  lemma OffenseSparesByOff(o: Oracle)
    ensures Substitute(Offense, o, "by off") == "by off"
  {
    var s := "by off";
    var m := MatcherOf(Offense.pattern, o);
    forall q | 0 <= q < |s|
      ensures !Hits(m, s, q)
    {
      if q == 3 {
        assert PrecededBy(s, q, "by ");
      } else if q == 0 {
        assert !SpellsAt(Lit("off"), s, q);
      } else if q != 2 {
        assert !BoundaryAt(s, q);
      }
    }
    NoHitFrom(m, _ => Offense.replacement, s, 0);
  }

  /** "Less Than 2" can never fire: `\b` cannot sit between `t` and a digit. */
  lemma LessThan2IsDead(o: Oracle, s: string)
    ensures Substitute(LessThan2, o, s) == s
  {
    forall q | 0 <= q < |s|
      ensures !Hits(MatcherOf(LessThan2.pattern, o), s, q)
    {
      FollowedByDigitThenBoundaryNeverMatches(LessThan2.pattern, o, s, q);
    }
  }

  /** "Greater Than 2" can never fire, for the same reason. */
  lemma GreaterThan2IsDead(o: Oracle, s: string)
    ensures Substitute(GreaterThan2, o, s) == s
  {
    forall q | 0 <= q < |s|
      ensures !Hits(MatcherOf(GreaterThan2.pattern, o), s, q)
    {
      FollowedByDigitThenBoundaryNeverMatches(GreaterThan2.pattern, o, s, q);
    }
  }

  /**
   * "With Out" is a plain string, so `{sep}` in it is literal: it leaves
   * `w o` alone ...
   */
  lemma WithOutIgnoresSeparatedWords(o: Oracle)
    ensures Substitute(WithOut, o, "w o") == "w o"
  {
    var s := "w o";
    var m := MatcherOf(WithOut.pattern, o);
    forall q | 0 <= q < |s|
      ensures !Hits(m, s, q)
    {
      assert !SpellsAt(Lit("w{sep}o"), s, q);
      assert !SpellsAt(Lit("w{sep}out"), s, q);
    }
  }

  /** ... and rewrites only the seven characters `w{sep}o`. */
  lemma WithOutMatchesLiteralSep(o: Oracle)
    ensures Substitute(WithOut, o, "w{sep}o") == "without"
  {
    var s := "w{sep}o";
    var m := MatcherOf(WithOut.pattern, o);
    assert SpellsAt(Lit("w{sep}o"), s, 0);
    assert MatchAt(WithOut.pattern, o, s, 0) == Some(7);
    LeftmostHit(m, _ => WithOut.replacement, s, 0, 0);
  }

  /**
   * The leading `(?!\d+)` of "year 2" is vacuous, since `yr` never starts
   * with a digit: the rule matches exactly where `yr\b` does.
   */
  lemma Year2GuardIsVacuous(o: Oracle, s: string, i: nat)
    ensures MatchAt(Year2.pattern, o, s, i)
         == MatchAt(Words(false, [Lit("yr")], Unguarded, true), o, s, i)
  {
    NotAtDigitIsVacuous(Year2.pattern, o, s, i);
  }

  /** Without a leading `\b`, "year 2" also rewrites `yr` glued to a number. */
  lemma Year2SplitsNumberAndUnit(o: Oracle)
    ensures Substitute(Year2, o, "10yr") == "10 year"
  {
    var s := "10yr";
    var m := MatcherOf(Year2.pattern, o);
    assert MatchAt(Year2.pattern, o, s, 2) == Some(2);
    forall q | 0 <= q < 2
      ensures !Hits(m, s, q)
    {
      assert !SpellsAt(Lit("yr"), s, q);
    }
    LeftmostHit(m, _ => Year2.replacement, s, 0, 2);
  }

  /** The "heroine" rule appears twice in a row among the drug rules. */
  lemma HeroineListedTwice()
    ensures exists k :: 0 <= k < |DrugTerms| - 1 && DrugTerms[k] == Heroine && DrugTerms[k + 1] == Heroine
  {
    assert DrugTerms[5] == Heroine && DrugTerms[6] == HeroineAgain;
  }

  /** Two different rules share the description "assault and battery 2". */
  lemma AssaultAndBatteryNamedTwice()
    ensures AssaultAndBattery2.description == AssaultAndBattery2Again.description
    ensures AssaultAndBattery2.pattern != AssaultAndBattery2Again.pattern
    ensures exists k :: 0 <= k < |LewdTerms| - 1
              && LewdTerms[k] == AssaultAndBattery2 && LewdTerms[k + 1] == AssaultAndBattery2Again
  {
    assert LewdTerms[10] == AssaultAndBattery2 && LewdTerms[11] == AssaultAndBattery2Again;
  }
}
