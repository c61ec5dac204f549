/**
 * The rule patterns of the catalogue.
 *
 * Almost every plain pattern of the catalogue has the shape
 * `\b(?<!g)(?:a1|a2|...|an)(?!h)\b`: optional word boundaries around an
 * ordered alternation of short fixed-width alternatives, with at most one
 * lookaround guard. `Words` gives that shape a concrete meaning. Optional
 * characters and nested groups are expanded into alternatives in the order
 * Python's backtracking tries them, so "the first alternative that fits"
 * is the match the regex engine finds. Patterns built with the `sep`
 * sub-pattern need full backtracking and stay `Composite`: their meaning is
 * supplied by an `Oracle`, and every property of the pipeline holds for any
 * oracle.
 */
module Patterns {
  import opened Wrappers
  import opened Chars
  import opened Rewrite

  /** One position of an alternative: a literal character (compared ignoring case) or a class. */
  datatype Atom =
    | Char(c: char)   // a literal, matched under re.IGNORECASE
    | WordClass       // \w
    | NonWordClass    // \W
    | DigitClass      // \d
    | SpaceClass      // \s

  type Alternative = a: seq<Atom> | |a| > 0 witness [WordClass]

  /** A zero-width lookaround beside the alternation. */
  datatype Guard =
    | Unguarded
    | NotPrecededBy(before: string)   // (?<!before) ahead of the alternation
    | NotAtDigit                      // (?!\d+) ahead of the alternation
    | NotFollowedBy(after: string)    // (?!after) behind the alternation
    | FollowedByDigit                 // (?=\d+) behind the alternation

  datatype Pattern =
    | Words(leading: bool, alternatives: seq<Alternative>, guard: Guard, trailing: bool)
    | Composite(source: string)

  /** The meaning of the composite patterns, keyed by their regex text. */
  type Oracle = (string, string, nat) -> Option<Len>

  /** The alternative spelled by a literal word, as a `Words` pattern holds it. */
  function Lit(w: string): Alternative
    requires |w| > 0
  {
    seq(|w|, k requires 0 <= k < |w| => Char(w[k]))
  }

  predicate Accepts(a: Atom, c: char) {
    match a
    case Char(x) => SameIgnoringCase(x, c)
    case WordClass => IsWordChar(c)
    case NonWordClass => !IsWordChar(c)
    case DigitClass => IsDigit(c)
    case SpaceClass => IsSpace(c)
  }

  /** The atoms of `alt` accept the characters of `s` from position `i` on. */
  predicate SpellsAt(alt: seq<Atom>, s: string, i: nat)
    decreases |alt|
  {
    |alt| == 0 || (i < |s| && Accepts(alt[0], s[i]) && SpellsAt(alt[1..], s, i + 1))
  }

  /** Text ahead of position `i` equals `t` ignoring case. */
  predicate PrecededBy(s: string, i: nat, t: string) {
    |t| <= i <= |s| && EqualIgnoringCase(s[i - |t|..i], t)
  }

  /** Text from position `j` starts with `t` ignoring case. */
  predicate FollowedBy(s: string, j: nat, t: string) {
    j + |t| <= |s| && EqualIgnoringCase(s[j..j + |t|], t)
  }

  /** The lookbehind-side conditions, checked once at the start position. */
  predicate StartOk(p: Pattern, s: string, i: nat)
    requires p.Words? && i <= |s|
  {
    && (p.leading ==> BoundaryAt(s, i))
    && match p.guard
       case NotPrecededBy(t) => !PrecededBy(s, i, t)
       case NotAtDigit => !(i < |s| && IsDigit(s[i]))
       case _ => true
  }

  /** The lookahead-side conditions, checked where an alternative ends. */
  predicate EndOk(p: Pattern, s: string, j: nat)
    requires p.Words? && j <= |s|
  {
    && (p.trailing ==> BoundaryAt(s, j))
    && match p.guard
       case NotFollowedBy(t) => !FollowedBy(s, j, t)
       case FollowedByDigit => j < |s| && IsDigit(s[j])
       case _ => true
  }

  /** Alternative `k` spells the text at `i` and the conditions after it hold. */
  predicate Fits(p: Pattern, k: nat, s: string, i: nat)
    requires p.Words? && k < |p.alternatives| && i <= |s|
  {
    var alt := p.alternatives[k];
    SpellsAt(alt, s, i) && i + |alt| <= |s| && EndOk(p, s, i + |alt|)
  }

  /** The first alternative from index `k` on that fits, as its match length. */
  function FirstFit(p: Pattern, k: nat, s: string, i: nat): Option<Len>
    requires p.Words? && k <= |p.alternatives| && i <= |s|
    decreases |p.alternatives| - k
  {
    if k == |p.alternatives| then None
    else if Fits(p, k, s, i) then Some(|p.alternatives[k]|)
    else FirstFit(p, k + 1, s, i)
  }

  /**
   * The match of `p` tried at exactly position `i` of `s`. A match of a
   * `Words` pattern lies within the text, starts where the leading boundary
   * and lookbehind hold, and is as long as the first alternative that fits.
   */
  function MatchAt(p: Pattern, o: Oracle, s: string, i: nat): (r: Option<Len>)
    ensures p.Words? && r.Some? ==>
      && i + r.value <= |s| && StartOk(p, s, i)
      && exists j :: && 0 <= j < |p.alternatives| && Fits(p, j, s, i)
                     && (forall j' :: 0 <= j' < j ==> !Fits(p, j', s, i))
                     && r.value == |p.alternatives[j]|
  {
    match p
    case Composite(src) => o(src, s, i)
    case Words(_, _, _, _) =>
      if i <= |s| && StartOk(p, s, i) then
        FirstFitIsFirst(p, 0, s, i);
        FirstFit(p, 0, s, i)
      else None
  }

  /** The pattern as a matcher for the replace-all scan. */
  function MatcherOf(p: Pattern, o: Oracle): Matcher {
    (s: string, i: nat) => MatchAt(p, o, s, i)
  }

  /** `SpellsAt` is a position-by-position comparison. */
  lemma {:induction false} SpellsAtPointwise(alt: seq<Atom>, s: string, i: nat)
    requires i <= |s|
    ensures SpellsAt(alt, s, i)
        <==> i + |alt| <= |s| && forall k :: 0 <= k < |alt| ==> Accepts(alt[k], s[i + k])
    decreases |alt|
  {
    if |alt| > 0 && i < |s| {
      SpellsAtPointwise(alt[1..], s, i + 1);
      if i < |s| && Accepts(alt[0], s[i]) && SpellsAt(alt[1..], s, i + 1) {
        forall k | 0 <= k < |alt| ensures Accepts(alt[k], s[i + k]) {
          if k > 0 {
            assert alt[1..][k - 1] == alt[k];
          }
        }
      }
      if i + |alt| <= |s| && forall k :: 0 <= k < |alt| ==> Accepts(alt[k], s[i + k]) {
        forall k | 0 <= k < |alt| - 1 ensures Accepts(alt[1..][k], s[i + 1 + k]) {
          assert Accepts(alt[k + 1], s[i + k + 1]);
        }
      }
    }
  }

  /**
   * Ordered alternation: from index `k` on, `FirstFit` finds a match exactly
   * when some alternative fits, and then it is the FIRST alternative that
   * fits, even where a later one would be longer.
   */
  lemma {:induction false} FirstFitIsFirst(p: Pattern, k: nat, s: string, i: nat)
    requires p.Words? && k <= |p.alternatives| && i <= |s|
    ensures FirstFit(p, k, s, i).Some?
        <==> exists j :: k <= j < |p.alternatives| && Fits(p, j, s, i)
    ensures FirstFit(p, k, s, i).Some? ==>
      exists j :: && k <= j < |p.alternatives| && Fits(p, j, s, i)
                  && (forall j' :: k <= j' < j ==> !Fits(p, j', s, i))
                  && FirstFit(p, k, s, i).value == |p.alternatives[j]|
    decreases |p.alternatives| - k
  {
    if k < |p.alternatives| && !Fits(p, k, s, i) {
      FirstFitIsFirst(p, k + 1, s, i);
      if FirstFit(p, k, s, i).Some? {
        var j :| && k + 1 <= j < |p.alternatives| && Fits(p, j, s, i)
                 && (forall j' :: k + 1 <= j' < j ==> !Fits(p, j', s, i))
                 && FirstFit(p, k + 1, s, i).value == |p.alternatives[j]|;
        assert forall j' :: k <= j' < j ==> !Fits(p, j', s, i);
      }
    }
  }

  /**
   * A `Words` pattern matches at `i` exactly when the start conditions hold
   * and some alternative fits; the match is as long as the first one that fits.
   */
  lemma WordsMatch(p: Pattern, o: Oracle, s: string, i: nat)
    requires p.Words? && i <= |s|
    ensures MatchAt(p, o, s, i).Some?
        <==> StartOk(p, s, i) && exists j :: 0 <= j < |p.alternatives| && Fits(p, j, s, i)
    ensures MatchAt(p, o, s, i).Some? ==>
      exists j :: && 0 <= j < |p.alternatives| && Fits(p, j, s, i)
                  && (forall j' :: 0 <= j' < j ==> !Fits(p, j', s, i))
                  && MatchAt(p, o, s, i).value == |p.alternatives[j]|
  {
    FirstFitIsFirst(p, 0, s, i);
  }

  /** `(?<!t)`: a `Words` pattern never matches right behind the text `t`. */
  lemma NotPrecededByBlocks(p: Pattern, o: Oracle, s: string, i: nat)
    requires p.Words? && p.guard.NotPrecededBy?
    requires PrecededBy(s, i, p.guard.before)
    ensures MatchAt(p, o, s, i) == None
  {
  }

  /** `(?!t)`: no alternative fits where it would be followed by the text `t`. */
  lemma NotFollowedByBlocks(p: Pattern, o: Oracle, s: string, i: nat)
    requires p.Words? && p.guard.NotFollowedBy? && i <= |s|
    requires forall k :: 0 <= k < |p.alternatives| ==>
               FollowedBy(s, i + |p.alternatives[k]|, p.guard.after)
    ensures MatchAt(p, o, s, i) == None
  {
    WordsMatch(p, o, s, i);
  }

  /** The atom can only accept word characters. */
  predicate OnlyWord(a: Atom) {
    match a
    case Char(c) => IsWordChar(c)
    case WordClass => true
    case DigitClass => true
    case _ => false
  }

  lemma OnlyWordAccepts(a: Atom, c: char)
    requires OnlyWord(a) && Accepts(a, c)
    ensures IsWordChar(c)
  {
    if a.Char? {
      LowerKeepsClasses(a.c);
      LowerKeepsClasses(c);
    }
  }

  /**
   * `\b...(?=\d+)\b` with alternatives ending in a word character can never
   * match: the lookahead puts a digit, itself a word character, right after
   * a word character, where no word boundary can be.
   */
  lemma FollowedByDigitThenBoundaryNeverMatches(p: Pattern, o: Oracle, s: string, i: nat)
    requires p.Words? && p.guard == FollowedByDigit && p.trailing
    requires forall k :: 0 <= k < |p.alternatives| ==>
               OnlyWord(p.alternatives[k][|p.alternatives[k]| - 1])
    ensures MatchAt(p, o, s, i) == None
  {
    if i <= |s| {
      forall k | 0 <= k < |p.alternatives| ensures !Fits(p, k, s, i) {
        var alt := p.alternatives[k];
        SpellsAtPointwise(alt, s, i);
        if SpellsAt(alt, s, i) && i + |alt| < |s| {
          OnlyWordAccepts(alt[|alt| - 1], s[i + |alt| - 1]);
        }
      }
      WordsMatch(p, o, s, i);
    }
  }

  /** The atom can only accept characters other than digits. */
  predicate NeverDigit(a: Atom) {
    match a
    case Char(c) => !IsDigit(c)
    case NonWordClass => true
    case SpaceClass => true
    case _ => false
  }

  /**
   * A leading `(?!\d+)` before alternatives that all start with a non-digit
   * changes nothing: the pattern matches exactly as it would unguarded.
   */
  lemma NotAtDigitIsVacuous(p: Pattern, o: Oracle, s: string, i: nat)
    requires p.Words? && p.guard == NotAtDigit
    requires forall k :: 0 <= k < |p.alternatives| ==> NeverDigit(p.alternatives[k][0])
    ensures MatchAt(p, o, s, i) == MatchAt(p.(guard := Unguarded), o, s, i)
  {
    var q := p.(guard := Unguarded);
    if i <= |s| {
      forall k | 0 <= k < |p.alternatives| ensures Fits(p, k, s, i) == Fits(q, k, s, i) {
      }
      if i < |s| && IsDigit(s[i]) {
        forall k | 0 <= k < |q.alternatives| ensures !Fits(q, k, s, i) {
          var a := q.alternatives[k][0];
          if a.Char? {
            LowerKeepsClasses(a.c);
            LowerKeepsClasses(s[i]);
          }
          assert !Accepts(a, s[i]);
        }
        WordsMatch(q, o, s, i);
      }
      FirstFitSameFits(p, q, 0, s, i);
    }
  }

  /** Two patterns whose alternatives fit alike find the same first fit. */
  lemma {:induction false} FirstFitSameFits(p: Pattern, q: Pattern, k: nat, s: string, i: nat)
    requires p.Words? && q.Words? && p.alternatives == q.alternatives
    requires k <= |p.alternatives| && i <= |s|
    requires forall j :: k <= j < |p.alternatives| ==> Fits(p, j, s, i) == Fits(q, j, s, i)
    ensures FirstFit(p, k, s, i) == FirstFit(q, k, s, i)
    decreases |p.alternatives| - k
  {
    if k < |p.alternatives| {
      FirstFitSameFits(p, q, k + 1, s, i);
    }
  }
}
