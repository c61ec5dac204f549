/**
 * `prep_text`: four `re.sub` calls, in this order, none of them ignoring case.
 *   1. `(\d+?),(\d+?)` -> `\1\2`: a comma between digits goes;
 *   2. `\b(\S+?)'(s)`  -> `\1\2`: the apostrophe of a possessive `'s` goes;
 *   3. `-` -> one space;
 *   4. `/` -> one space.
 */
module Prep {
  import opened Wrappers
  import opened Chars
  import opened Rewrite

  /** The end of the run of digits that starts at `i`. */
  function DigitRunEnd(s: string, i: nat): (e: nat)
    requires i <= |s|
    ensures i <= e <= |s|
    ensures forall k :: i <= k < e ==> IsDigit(s[k])
    ensures e == |s| || !IsDigit(s[e])
    decreases |s| - i
  {
    if i < |s| && IsDigit(s[i]) then DigitRunEnd(s, i + 1) else i
  }

  /**
   * A match of `(\d+?),(\d+?)` from `i` with its comma at `e`: digits from
   * `i` up to the comma and one digit after it.
   */
  predicate ThousandsSpan(s: string, i: nat, e: nat) {
    i < e && DigitCommaDigit(s, e) && forall k :: i <= k < e ==> IsDigit(s[k])
  }

  /**
   * `(\d+?),(\d+?)` tried at `i`: the lazy first group grows over the run of
   * digits until a comma follows, and the lazy second group takes one digit.
   * It matches exactly when such a span starts at `i`, and the match ends one
   * digit past that span's comma.
   */
  function ThousandsAt(s: string, i: nat): (r: Option<Len>)
    ensures r.Some? <==> exists e: nat :: ThousandsSpan(s, i, e)
    ensures forall e: nat :: ThousandsSpan(s, i, e) ==> r == Some(e + 2 - i)
  {
    if i < |s| && IsDigit(s[i]) then
      var e := DigitRunEnd(s, i);
      assert forall e': nat :: ThousandsSpan(s, i, e') ==> e' == e;
      if e + 1 < |s| && s[e] == ',' && IsDigit(s[e + 1]) then
        assert ThousandsSpan(s, i, e);
        Some(e + 2 - i)
      else None
    else None
  }

  /** An apostrophe followed by a lower-case `s` at `k`. */
  predicate ApostropheS(s: string, k: nat) {
    k + 1 < |s| && s[k] == '\'' && s[k + 1] == 's'
  }

  /**
   * The lazy `(\S+?)` of the possessive pattern: the first `j` from which
   * `'s` follows, with `s[i..j]` free of whitespace. It finds one exactly when
   * an `'s` lies ahead with only non-whitespace before it, and then it stops
   * at the first `'s`.
   */
  function ApostropheFrom(s: string, i: nat, j: nat): (r: Option<nat>)
    requires i < j <= |s|
    ensures r.Some? <==> exists k: nat :: j <= k && ApostropheS(s, k) && NoSpaceBetween(s, j, k)
    ensures r.Some? ==> j <= r.value && ApostropheS(s, r.value) && NoSpaceBetween(s, j, r.value)
    ensures r.Some? ==> forall k :: j <= k < r.value ==> !ApostropheS(s, k)
    decreases |s| - j
  {
    if ApostropheS(s, j) then
      assert NoSpaceBetween(s, j, j);
      Some(j)
    else if j < |s| && !IsSpace(s[j]) then
      var r := ApostropheFrom(s, i, j + 1);
      assert forall k: nat :: j + 1 <= k && NoSpaceBetween(s, j + 1, k) ==> NoSpaceBetween(s, j, k);
      assert forall k: nat :: j < k && NoSpaceBetween(s, j, k) ==> NoSpaceBetween(s, j + 1, k);
      r
    else
      assert forall k: nat :: j <= k && ApostropheS(s, k) ==> !NoSpaceBetween(s, j, k) by {
        forall k: nat | j <= k && ApostropheS(s, k) ensures !NoSpaceBetween(s, j, k) {
          assert k != j;
        }
      }
      None
  }

  /** No whitespace from `j` up to `k`. */
  predicate NoSpaceBetween(s: string, j: nat, k: nat) {
    k <= |s| && forall x :: j <= x < k ==> !IsSpace(s[x])
  }

  /**
   * `\b(\S+?)'(s)` tried at `i`: it matches exactly when a possessive span
   * starts at `i`, and the match ends just past the first `'s` of such a span.
   */
  function PossessiveAt(s: string, i: nat): (r: Option<Len>)
    ensures r.Some? <==> exists j: nat :: PossessiveSpan(s, i, j)
    ensures r.Some? ==> r.value >= 2 && PossessiveSpan(s, i, i + r.value - 2)
    ensures r.Some? ==> forall j: nat :: i < j < i + r.value - 2 ==> !PossessiveSpan(s, i, j)
  {
    if i < |s| && BoundaryAt(s, i) && !IsSpace(s[i]) then
      var a := ApostropheFrom(s, i, i + 1);
      assert a.Some? <==> exists j: nat :: PossessiveSpan(s, i, j) by {
        if a.Some? {
          assert PossessiveSpan(s, i, a.value);
        }
        forall j: nat | PossessiveSpan(s, i, j) ensures a.Some? {
          assert i + 1 <= j && ApostropheS(s, j) && NoSpaceBetween(s, i + 1, j);
        }
      }
      match a
      case Some(j) => Some(j + 2 - i)
      case None => None
    else
      assert forall j: nat :: !PossessiveSpan(s, i, j);
      None
  }

  /** A one-character pattern `c`. */
  function CharAt(c: char, s: string, i: nat): Option<Len> {
    if i < |s| && s[i] == c then Some(1) else None
  }

  /** `\1\2` for the two patterns above: the one character between the groups is dropped. */
  function JoinGroups(t: string): string {
    if |t| >= 2 then t[..|t| - 2] + t[|t| - 1..] else t
  }

  const Thousands: Matcher := (s: string, i: nat) => ThousandsAt(s, i)

  const Possessive: Matcher := (s: string, i: nat) => PossessiveAt(s, i)

  /** Step 1 of `prep_text`: it deletes commas and nothing else, and never lengthens the text. */
  function StripThousands(s: string): (r: string)
    ensures Without(',', r) == Without(',', s)
    ensures |r| <= |s|
  {
    JoiningKeepsAllBut(',', Thousands, s, 0);
    assert s[0..] == s;
    JoinGroupsNoLonger();
    ReplaceAll(Thousands, JoinGroups, s)
  }

  /** Step 2 of `prep_text`: it deletes apostrophes and nothing else, and never lengthens the text. */
  function CollapsePossessives(s: string): (r: string)
    ensures Without('\'', r) == Without('\'', s)
    ensures |r| <= |s|
  {
    JoiningKeepsAllBut('\'', Possessive, s, 0);
    assert s[0..] == s;
    JoinGroupsNoLonger();
    ReplaceAll(Possessive, JoinGroups, s)
  }

  /**
   * `re.sub(c, " ", s)` for a single literal character `c`: a one-for-one
   * map that puts a space exactly where `c` was.
   */
  function CharToSpace(c: char, s: string): (r: string)
    ensures |r| == |s|
    ensures forall k :: 0 <= k < |s| ==> r[k] == (if s[k] == c then ' ' else s[k])
  {
    CharToSpaceFrom(c, s, 0);
    ReplaceAll((s: string, i: nat) => CharAt(c, s, i), _ => " ", s)
  }

  /** `prep_text`; its output holds no hyphen and no slash. */
  function PrepText(s: string): (r: string)
    ensures '-' !in r && '/' !in r
  {
    CharToSpace('/', CharToSpace('-', CollapsePossessives(StripThousands(s))))
  }

  /** `s` with every occurrence of `c` taken out. */
  function Without(c: char, s: string): string
    decreases |s|
  {
    if |s| == 0 then [] else (if s[0] == c then [] else [s[0]]) + Without(c, s[1..])
  }

  lemma {:induction false} WithoutAppend(c: char, a: string, b: string)
    ensures Without(c, a + b) == Without(c, a) + Without(c, b)
    decreases |a|
  {
    if |a| == 0 {
      assert a + b == b;
    } else {
      assert (a + b)[0] == a[0] && (a + b)[1..] == a[1..] + b;
      WithoutAppend(c, a[1..], b);
      Assoc(if a[0] == c then [] else [a[0]], Without(c, a[1..]), Without(c, b));
    }
  }

  /** Joining the groups only drops the character between them. */
  lemma JoinGroupsDrops(c: char, t: string)
    requires |t| >= 2 && t[|t| - 2] == c
    ensures Without(c, JoinGroups(t)) == Without(c, t)
    ensures |JoinGroups(t)| == |t| - 1
  {
    var n := |t|;
    assert t == t[..n - 2] + [c] + t[n - 1..];
    WithoutAppend(c, t[..n - 2], t[n - 1..]);
    WithoutAppend(c, t[..n - 2] + [c], t[n - 1..]);
    WithoutAppend(c, t[..n - 2], [c]);
    assert Without(c, [c]) == [] by {
      assert [c][1..] == [];
    }
  }

  lemma JoinGroupsNoLonger()
    ensures forall t :: |JoinGroups(t)| <= |t|
  {
  }

  /**
   * A pass whose matches all have `c` just before their last character, and
   * that joins the groups around it, removes occurrences of `c` and nothing else.
   */
  lemma JoiningKeepsAllBut(c: char, m: Matcher, s: string, i: nat)
    requires i <= |s|
    requires forall q: nat :: Hits(m, s, q) ==> m(s, q).value >= 2 && s[q + m(s, q).value - 2] == c
    ensures Without(c, ReplaceFrom(m, JoinGroups, s, i)) == Without(c, s[i..])
  {
    var g := t => Without(c, t);
    forall a, b ensures g(a + b) == g(a) + g(b) {
      WithoutAppend(c, a, b);
    }
    forall q: nat | Hits(m, s, q)
      ensures g(JoinGroups(s[q..q + m(s, q).value])) == g(s[q..q + m(s, q).value])
    {
      JoinGroupsDrops(c, s[q..q + m(s, q).value]);
    }
    ReplaceFromUnder(g, m, JoinGroups, s, i);
  }

  /** A comma with a digit right before and right after it. */
  predicate DigitCommaDigit(s: string, k: nat) {
    0 < k < |s| - 1 && IsDigit(s[k - 1]) && s[k] == ',' && IsDigit(s[k + 1])
  }

  /**
   * The comma step changes the text exactly when some comma has a digit on
   * each side.
   */
  lemma StripThousandsChangesIff(s: string)
    ensures StripThousands(s) != s <==> exists k: nat :: DigitCommaDigit(s, k)
  {
    var m := Thousands;
    if k: nat :| DigitCommaDigit(s, k) {
      assert ThousandsSpan(s, k - 1, k);
      assert Hits(m, s, k - 1);
      JoinGroupsNoLonger();
      ReplaceFromShorter(m, JoinGroups, s, 0, k - 1);
    } else {
      NoHitFrom(m, JoinGroups, s, 0);
    }
  }

  /** The comma pattern looks only forward, so it matches a suffix as it matches the text. */
  lemma ThousandsAtShift(s: string, d: nat, p: nat)
    requires d <= p && d <= |s|
    ensures ThousandsAt(s, p) == ThousandsAt(s[d..], p - d)
  {
    var t, p' := s[d..], p - d;
    forall e: nat | ThousandsSpan(s, p, e) ensures ThousandsSpan(t, p', e - d) {
      assert forall x :: p' <= x < e - d ==> t[x] == s[x + d];
    }
    forall e: nat | ThousandsSpan(t, p', e) ensures ThousandsSpan(s, p, e + d) {
      assert forall x :: p <= x < e + d ==> s[x] == t[x - d];
    }
    if e: nat :| ThousandsSpan(s, p, e) {
      assert ThousandsSpan(t, p', e - d);
    }
  }

  /** `\1\2` on a match from `q` with its separator at `j`: the separator goes. */
  lemma JoinGroupsAt(s: string, q: nat, j: nat)
    requires q < j && j + 1 < |s|
    ensures s[..q] + JoinGroups(s[q..j + 2]) == s[..j] + s[j + 1..j + 2]
  {
    var w := s[q..j + 2];
    assert JoinGroups(w) == s[q..j] + s[j + 1..j + 2];
    assert s[..q] + s[q..j] == s[..j];
  }

  /**
   * When the leftmost match runs from `q` to just past `j + 1`, joining its
   * groups drops the character at `j`, and the scan resumes at `j + 2`.
   */
  lemma FirstMatchJoined(m: Matcher, s: string, q: nat, j: nat)
    requires q < j && Hits(m, s, q) && m(s, q).value == j + 2 - q
    requires forall p :: 0 <= p < q ==> !Hits(m, s, p)
    ensures ReplaceFrom(m, JoinGroups, s, 0)
         == s[..j] + s[j + 1..j + 2] + ReplaceFrom(m, JoinGroups, s, j + 2)
  {
    var n := m(s, q).value;
    assert q + n == j + 2;
    LeftmostHit(m, JoinGroups, s, 0, q);
    assert ReplaceFrom(m, JoinGroups, s, 0)
        == s[0..q] + JoinGroups(s[q..j + 2]) + ReplaceFrom(m, JoinGroups, s, j + 2);
    JoinGroupsAt(s, q, j);
    assert s[0..q] == s[..q];
  }

  /**
   * No comma match starts before the run of digits that ends at the leftmost
   * digit-comma-digit.
   */
  lemma NoThousandsBefore(s: string, k: nat, q: nat)
    requires DigitCommaDigit(s, k)
    requires forall k': nat :: k' < k ==> !DigitCommaDigit(s, k')
    requires q < k && (q == 0 || !IsDigit(s[q - 1]))
    ensures forall p :: 0 <= p < q ==> !Hits(Thousands, s, p)
  {
    assert !IsDigit(s[k]);
    forall p | 0 <= p < q ensures ThousandsAt(s, p).None? {
      forall e: nat | p < e < k ensures !ThousandsSpan(s, p, e) {
        assert !DigitCommaDigit(s, e);
      }
      forall e: nat | k < e ensures !ThousandsSpan(s, p, e) {
        assert p <= k < e;
      }
      assert !ThousandsSpan(s, p, k) by {
        assert p <= q - 1 < k;
      }
    }
  }

  /**
   * The comma step acts first at the leftmost comma with a digit on each
   * side: the text before that comma is kept, the comma goes, the digit
   * after it stays, and the step starts afresh on the rest of the text.
   */
  lemma StripThousandsFirstComma(s: string, k: nat)
    requires DigitCommaDigit(s, k)
    requires forall k': nat :: k' < k ==> !DigitCommaDigit(s, k')
    ensures StripThousands(s) == s[..k] + s[k + 1..k + 2] + StripThousands(s[k + 2..])
  {
    ThousandsScanFirst(s, k);
    StripThousandsSuffix(s, k + 2);
  }

  lemma ThousandsScanFirst(s: string, k: nat)
    requires DigitCommaDigit(s, k)
    requires forall k': nat :: k' < k ==> !DigitCommaDigit(s, k')
    ensures ReplaceFrom(Thousands, JoinGroups, s, 0)
         == s[..k] + s[k + 1..k + 2] + ReplaceFrom(Thousands, JoinGroups, s, k + 2)
  {
    var q := DigitRunStart(s, k);
    assert ThousandsSpan(s, q, k);
    NoThousandsBefore(s, k, q);
    FirstMatchJoined(Thousands, s, q, k);
  }

  /** Where the run of digits that ends just before `k` starts. */
  lemma DigitRunStart(s: string, k: nat) returns (q: nat)
    requires 0 < k <= |s| && IsDigit(s[k - 1])
    ensures q < k && (q == 0 || !IsDigit(s[q - 1]))
    ensures forall x :: q <= x < k ==> IsDigit(s[x])
  {
    q := k - 1;
    while q > 0 && IsDigit(s[q - 1])
      invariant 0 <= q < k
      invariant forall x :: q <= x < k ==> IsDigit(s[x])
    {
      q := q - 1;
    }
  }

  /** The comma scan from `d` is the comma step on the text from `d` on. */
  lemma StripThousandsSuffix(s: string, d: nat)
    requires d <= |s|
    ensures ReplaceFrom(Thousands, JoinGroups, s, d) == StripThousands(s[d..])
  {
    forall p: nat | d <= p < |s| ensures Thousands(s, p) == Thousands(s[d..], p - d) {
      ThousandsAtShift(s, d, p);
    }
    ReplaceFromShift(Thousands, JoinGroups, s, s[d..], d, d);
  }

  /**
   * The possessive step acts first at the leftmost position that starts a
   * possessive span, and there at the first `'s` of the span: the text before
   * that apostrophe is kept, the apostrophe goes, the `s` stays, and the scan
   * resumes after the `s`.
   */
  lemma CollapsePossessivesFirst(s: string, q: nat, j: nat)
    requires PossessiveSpan(s, q, j)
    requires forall q': nat, j': nat :: q' < q ==> !PossessiveSpan(s, q', j')
    requires forall j': nat :: j' < j ==> !PossessiveSpan(s, q, j')
    ensures CollapsePossessives(s)
         == s[..j] + s[j + 1..j + 2] + ReplaceFrom(Possessive, JoinGroups, s, j + 2)
  {
    PossessiveScanFirst(s, q, j);
  }

  lemma PossessiveScanFirst(s: string, q: nat, j: nat)
    requires PossessiveSpan(s, q, j)
    requires forall q': nat, j': nat :: q' < q ==> !PossessiveSpan(s, q', j')
    requires forall j': nat :: j' < j ==> !PossessiveSpan(s, q, j')
    ensures ReplaceFrom(Possessive, JoinGroups, s, 0)
         == s[..j] + s[j + 1..j + 2] + ReplaceFrom(Possessive, JoinGroups, s, j + 2)
  {
    PossessiveAtFirst(s, q, j);
    NoPossessiveBefore(s, q);
    FirstMatchJoined(Possessive, s, q, j);
  }


  /** At the start of a possessive span, the match ends just past its first `'s`. */
  lemma PossessiveAtFirst(s: string, q: nat, j: nat)
    requires PossessiveSpan(s, q, j)
    requires forall j': nat :: j' < j ==> !PossessiveSpan(s, q, j')
    ensures PossessiveAt(s, q) == Some(j + 2 - q)
    ensures Hits(Possessive, s, q)
  {
    var r := PossessiveAt(s, q);
    assert r.Some?;
    var j' := q + r.value - 2;
    assert PossessiveSpan(s, q, j');
    assert !(j' < j);
    assert !(j < j');
  }

  /** No possessive match starts before the leftmost possessive span. */
  lemma NoPossessiveBefore(s: string, q: nat)
    requires forall q': nat, j': nat :: q' < q ==> !PossessiveSpan(s, q', j')
    ensures forall p :: 0 <= p < q ==> !Hits(Possessive, s, p)
  {
    forall p | 0 <= p < q ensures PossessiveAt(s, p).None? {
    }
  }

  /**
   * A possessive the pattern can match, from `q` to the apostrophe at `j`:
   * a word boundary at `q`, no whitespace from `q` up to `j`, and an
   * apostrophe at `j` followed by a lower-case `s`.
   */
  predicate PossessiveSpan(s: string, q: nat, j: nat) {
    q < j && ApostropheS(s, j) && BoundaryAt(s, q) && NoSpaceBetween(s, q, j)
  }

  /**
   * The possessive step changes the text exactly when it holds a possessive
   * the pattern can match.
   */
  lemma CollapsePossessivesChangesIff(s: string)
    ensures CollapsePossessives(s) != s <==> exists q: nat, j: nat :: PossessiveSpan(s, q, j)
  {
    var m := Possessive;
    if q: nat, j: nat :| PossessiveSpan(s, q, j) {
      assert Hits(m, s, q);
      forall q': nat | Hits(m, s, q')
        ensures |JoinGroups(s[q'..q' + m(s, q').value])| < m(s, q').value
      {
        assert m(s, q').value >= 2;
      }
      JoinGroupsNoLonger();
      ReplaceFromShorter(m, JoinGroups, s, 0, q);
    } else {
      NoHitFrom(m, JoinGroups, s, 0);
    }
  }

  /**
   * A word that starts with a word character and holds no `'s` of its own,
   * followed by `'s`, loses the apostrophe: `x's` becomes `xs`.
   */
  lemma CollapsesWordPossessive(x: string)
    requires |x| > 0 && IsWordChar(x[0])
    requires forall k :: 0 <= k < |x| ==> !IsSpace(x[k])
    requires forall k :: 0 <= k < |x| - 1 ==> !(x[k] == '\'' && x[k + 1] == 's')
    ensures CollapsePossessives(x + "'s") == x + "s"
  {
    var s, n := x + "'s", |x|;
    WordPossessiveSpan(x);
    PossessiveScanFirst(s, 0, n);
    assert ReplaceFrom(Possessive, JoinGroups, s, n + 2) == [];
    assert s[..n] == x && s[n + 1..n + 2] == "s";
  }

  /** `x's` for such a word `x` is one possessive span, from 0 to the apostrophe. */
  lemma WordPossessiveSpan(x: string)
    requires |x| > 0 && IsWordChar(x[0])
    requires forall k :: 0 <= k < |x| ==> !IsSpace(x[k])
    requires forall k :: 0 <= k < |x| - 1 ==> !(x[k] == '\'' && x[k + 1] == 's')
    ensures PossessiveSpan(x + "'s", 0, |x|)
    ensures forall j': nat :: j' < |x| ==> !PossessiveSpan(x + "'s", 0, j')
  {
    var s, n := x + "'s", |x|;
    assert s[n] == '\'' && s[n + 1] == 's' && |s| == n + 2;
    assert BoundaryAt(s, 0) by {
      assert s[0] == x[0];
    }
    forall k | 0 <= k < n ensures !IsSpace(s[k]) {
      assert s[k] == x[k];
    }
    forall j: nat | 0 < j < n ensures !ApostropheS(s, j) {
      assert s[j] == x[j];
      if j + 1 < n {
        assert s[j + 1] == x[j + 1];
      }
    }
  }


  /**
   * The possessive step is case-sensitive: text with no apostrophe followed
   * by a lower-case `s` (for instance `JOHN'S`) is left exactly as it is.
   */
  lemma CollapsePossessivesNeedsLowerS(s: string)
    requires forall k :: 0 <= k < |s| - 1 && s[k] == '\'' ==> s[k + 1] != 's'
    ensures CollapsePossessives(s) == s
  {
    var m := Possessive;
    forall q | 0 <= q < |s| ensures !Hits(m, s, q) {
      if q < |s| && BoundaryAt(s, q) && !IsSpace(s[q]) {
        assert ApostropheFrom(s, q, q + 1).None?;
      }
    }
  }

  /** `re.sub(c, " ", s)` is a one-for-one map: each `c` becomes a space, the rest stays. */
  lemma {:induction false} CharToSpaceFrom(c: char, s: string, i: nat)
    requires i <= |s|
    ensures var r := ReplaceFrom((s: string, i: nat) => CharAt(c, s, i), _ => " ", s, i);
      && |r| == |s| - i
      && forall k :: 0 <= k < |r| ==> r[k] == (if s[i + k] == c then ' ' else s[i + k])
    decreases |s| - i
  {
    if i < |s| {
      var m := (s: string, i: nat) => CharAt(c, s, i);
      if s[i] == c {
        ReplaceStep(m, _ => " ", s, i);
      } else {
        CopyStep(m, _ => " ", s, i);
      }
      CharToSpaceFrom(c, s, i + 1);
    }
  }

  /**
   * The last two steps of `prep_text` keep the length, and put a space
   * exactly where a hyphen or slash was.
   */
  lemma PrepTextSpacesOutDashesAndSlashes(s: string)
    ensures var t := CollapsePossessives(StripThousands(s));
      && |PrepText(s)| == |t|
      && forall k :: 0 <= k < |t| ==>
           PrepText(s)[k] == (if t[k] == '-' || t[k] == '/' then ' ' else t[k])
  {
  }

  /** `25,000` loses its thousands separator. */
  lemma StripThousandsExample()
    ensures StripThousands("$25,000") == "$25000"
  {
    var s := "$25,000";
    assert DigitRunEnd(s, 1) == 3;
    assert Thousands(s, 1) == Some(4);
    LeftmostHit(Thousands, JoinGroups, s, 0, 1);
    forall q | 5 <= q < |s| ensures !Hits(Thousands, s, q) {
      assert DigitRunEnd(s, q) == |s|;
    }
    NoHitFrom(Thousands, JoinGroups, s, 5);
  }

  /** Matches do not overlap: the digit after a removed comma cannot start the next match. */
  lemma StripThousandsNoOverlapExample()
    ensures StripThousands("1,2,3") == "12,3"
  {
    var s := "1,2,3";
    assert DigitRunEnd(s, 0) == 1;
    LeftmostHit(Thousands, JoinGroups, s, 0, 0);
    assert DigitRunEnd(s, 4) == 5;
    NoHitFrom(Thousands, JoinGroups, s, 3);
  }

  lemma CollapsePossessivesExample()
    ensures CollapsePossessives("John's") == "Johns"
  {
    var s := "John's";
    assert ApostropheFrom(s, 0, 1) == Some(4);
    LeftmostHit(Possessive, JoinGroups, s, 0, 0);
  }

  lemma CollapsePossessivesUpperExample()
    ensures CollapsePossessives("JOHN'S") == "JOHN'S"
  {
    CollapsePossessivesNeedsLowerS("JOHN'S");
  }
}
