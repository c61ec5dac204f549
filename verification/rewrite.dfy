/**
 * The scan of Python's `re.sub`: try the pattern at each position from the
 * left; a match is replaced and scanning resumes right after it (matches
 * never overlap); an unmatched character is copied. Matching always looks at
 * the ORIGINAL string, so replacements never feed back into the same pass.
 */
module Rewrite {
  import opened Wrappers

  /** Length of a match; every pattern of the cleaner consumes at least one character. */
  type Len = n: nat | n > 0 witness 1

  /** The match a pattern finds when tried at exactly position `i` of `s`, as its length. */
  type Matcher = (string, nat) -> Option<Len>

  /** What a matched span is rewritten to (a literal, or a group template). */
  type Replacer = string -> string

  /** `m` matches at `p`, and the match lies within `s`. */
  predicate Hits(m: Matcher, s: string, p: nat) {
    p < |s| && m(s, p).Some? && p + m(s, p).value <= |s|
  }

  /** `re.sub` from position `i` onwards. */
  function ReplaceFrom(m: Matcher, f: Replacer, s: string, i: nat): string
    requires i <= |s|
    decreases |s| - i
  {
    if i == |s| then []
    else if Hits(m, s, i) then
      var n := m(s, i).value;
      f(s[i..i + n]) + ReplaceFrom(m, f, s, i + n)
    else
      [s[i]] + ReplaceFrom(m, f, s, i + 1)
  }

  /**
   * `re.sub(pattern, replacement, s)`. A pattern that matches nowhere leaves
   * the text as it is; a replacement never longer than what it replaces
   * never lengthens the text.
   */
  function ReplaceAll(m: Matcher, f: Replacer, s: string): (r: string)
    ensures (forall q :: 0 <= q < |s| ==> !Hits(m, s, q)) ==> r == s
    ensures (forall t :: |t| > 0 ==> |f(t)| <= |t|) ==> |r| <= |s|
  {
    assert (forall q :: 0 <= q < |s| ==> !Hits(m, s, q)) ==> ReplaceFrom(m, f, s, 0) == s by {
      if forall q :: 0 <= q < |s| ==> !Hits(m, s, q) {
        NoHitFrom(m, f, s, 0);
      }
    }
    assert (forall t :: |t| > 0 ==> |f(t)| <= |t|) ==> |ReplaceFrom(m, f, s, 0)| <= |s| by {
      if forall t :: |t| > 0 ==> |f(t)| <= |t| {
        ReplaceFromNoLonger(m, f, s, 0);
      }
    }
    ReplaceFrom(m, f, s, 0)
  }

  /** Where the pattern matches nowhere, the text is copied unchanged. */
  lemma {:induction false} NoHitFrom(m: Matcher, f: Replacer, s: string, i: nat)
    requires i <= |s|
    requires forall q :: i <= q < |s| ==> !Hits(m, s, q)
    ensures ReplaceFrom(m, f, s, i) == s[i..]
    decreases |s| - i
  {
    if i < |s| {
      NoHitFrom(m, f, s, i + 1);
      assert s[i..] == [s[i]] + s[i + 1..];
    }
  }

  /** One step of the scan at a position where no match starts. */
  lemma CopyStep(m: Matcher, f: Replacer, s: string, i: nat)
    requires i < |s| && !Hits(m, s, i)
    ensures ReplaceFrom(m, f, s, i) == [s[i]] + ReplaceFrom(m, f, s, i + 1)
  {
  }

  /** One step of the scan at a position where a match starts. */
  lemma ReplaceStep(m: Matcher, f: Replacer, s: string, i: nat)
    requires Hits(m, s, i)
    ensures ReplaceFrom(m, f, s, i)
         == f(s[i..i + m(s, i).value]) + ReplaceFrom(m, f, s, i + m(s, i).value)
  {
  }

  /**
   * Leftmost, non-overlapping: if `p` is the first position at or after `i`
   * where the pattern matches, the text before `p` is copied, the match is
   * replaced, and the scan resumes right after the match.
   */
  lemma LeftmostHit(m: Matcher, f: Replacer, s: string, i: nat, p: nat)
    requires i <= p
    requires Hits(m, s, p)
    requires forall q :: i <= q < p ==> !Hits(m, s, q)
    ensures ReplaceFrom(m, f, s, i)
         == s[i..p] + f(s[p..p + m(s, p).value]) + ReplaceFrom(m, f, s, p + m(s, p).value)
  {
    var n := m(s, p).value;
    CopyUpTo(m, f, s, i, p);
    ReplaceStep(m, f, s, p);
    Assoc(s[i..p], f(s[p..p + n]), ReplaceFrom(m, f, s, p + n));
  }

  /** Up to the first match the scan copies the text. */
  lemma {:induction false} CopyUpTo(m: Matcher, f: Replacer, s: string, i: nat, p: nat)
    requires i <= p <= |s|
    requires forall q :: i <= q < p ==> !Hits(m, s, q)
    ensures ReplaceFrom(m, f, s, i) == s[i..p] + ReplaceFrom(m, f, s, p)
    decreases p - i
  {
    if i < p {
      CopyStep(m, f, s, i);
      CopyUpTo(m, f, s, i + 1, p);
      assert s[i..p] == [s[i]] + s[i + 1..p];
      Assoc([s[i]], s[i + 1..p], ReplaceFrom(m, f, s, p));
    }
  }

  lemma Assoc<T>(a: seq<T>, b: seq<T>, c: seq<T>)
    ensures a + (b + c) == a + b + c
  {
  }


  /**
   * `t` is the text `s` from `d` on, and the pattern sees the same at each
   * position of `t` as at the matching position of `s`.
   */
  predicate SuffixAgrees(m: Matcher, s: string, t: string, d: nat) {
    && |s| == d + |t|
    && (forall x :: 0 <= x < |t| ==> t[x] == s[d + x])
    && (forall p: nat :: d <= p < |s| ==> m(s, p) == m(t, p - d))
  }

  /**
   * A pattern that looks only forward from where it is tried sees the same
   * thing in a suffix of the text, so the scan from `i` is the scan of the
   * suffix that starts at `d`.
   */
  lemma {:induction false} ReplaceFromShift(m: Matcher, f: Replacer, s: string, t: string, d: nat, i: nat)
    requires d <= i <= |s| && SuffixAgrees(m, s, t, d)
    ensures ReplaceFrom(m, f, s, i) == ReplaceFrom(m, f, t, i - d)
    decreases |s| - i
  {
    if i < |s| {
      var n := Advance(m, s, i);
      assert m(s, i) == m(t, i - d);
      assert Advance(m, t, i - d) == n;
      SliceAgrees(s, t, d, i, i + n);
      assert Emit(m, f, s, i) == Emit(m, f, t, i - d);
      ScanStep(m, f, s, i);
      ScanStep(m, f, t, i - d);
      ReplaceFromShift(m, f, s, t, d, i + n);
      assert i - d + n == i + n - d;
    }
  }

  /** How far one step of the scan moves from `i`: past the match, or past one character. */
  function Advance(m: Matcher, s: string, i: nat): (n: nat)
    requires i < |s|
    ensures 0 < n && i + n <= |s|
  {
    if Hits(m, s, i) then m(s, i).value else 1
  }

  /** What one step of the scan from `i` emits: the replacement, or the copied character. */
  function Emit(m: Matcher, f: Replacer, s: string, i: nat): string
    requires i < |s|
  {
    if Hits(m, s, i) then f(s[i..i + m(s, i).value]) else s[i..i + 1]
  }

  lemma ScanStep(m: Matcher, f: Replacer, s: string, i: nat)
    requires i < |s|
    ensures ReplaceFrom(m, f, s, i) == Emit(m, f, s, i) + ReplaceFrom(m, f, s, i + Advance(m, s, i))
  {
    var n := Advance(m, s, i);
    if Hits(m, s, i) {
      assert ReplaceFrom(m, f, s, i) == f(s[i..i + n]) + ReplaceFrom(m, f, s, i + n);
    } else {
      assert ReplaceFrom(m, f, s, i) == [s[i]] + ReplaceFrom(m, f, s, i + n);
      assert s[i..i + 1] == [s[i]];
    }
  }

  /**
   * Under any map `g` that distributes over concatenation, a pass whose every
   * rewrite looks the same to `g` as the span it replaces looks the same as its input.
   */
  lemma {:induction false} ReplaceFromUnder(g: string -> string, m: Matcher, f: Replacer, s: string, i: nat)
    requires i <= |s|
    requires forall a, b :: g(a + b) == g(a) + g(b)
    requires forall q: nat :: Hits(m, s, q) ==> g(f(s[q..q + m(s, q).value])) == g(s[q..q + m(s, q).value])
    ensures g(ReplaceFrom(m, f, s, i)) == g(s[i..])
    decreases |s| - i
  {
    if i == |s| {
      assert s[i..] == [];
    } else {
      var n := UnderStep(g, m, f, s, i);
      ReplaceFromUnder(g, m, f, s, i + n);
    }
  }

  lemma UnderStep(g: string -> string, m: Matcher, f: Replacer, s: string, i: nat) returns (n: nat)
    requires i < |s|
    requires forall a, b :: g(a + b) == g(a) + g(b)
    requires Hits(m, s, i) ==> g(f(s[i..i + m(s, i).value])) == g(s[i..i + m(s, i).value])
    ensures 0 < n && i + n <= |s|
    ensures g(ReplaceFrom(m, f, s, i)) == g(s[i..i + n]) + g(ReplaceFrom(m, f, s, i + n))
    ensures g(s[i..]) == g(s[i..i + n]) + g(s[i + n..])
  {
    n := Advance(m, s, i);
    var e, r := Emit(m, f, s, i), ReplaceFrom(m, f, s, i + n);
    ScanStep(m, f, s, i);
    assert g(e + r) == g(e) + g(r);
    assert g(e) == g(s[i..i + n]);
    SplitUnder(g, s, i, i + n);
  }

  lemma SplitUnder(g: string -> string, s: string, i: nat, j: nat)
    requires i <= j <= |s|
    requires forall a, b :: g(a + b) == g(a) + g(b)
    ensures g(s[i..]) == g(s[i..j]) + g(s[j..])
  {
    assert s[i..] == s[i..j] + s[j..];
  }

  lemma SliceAgrees(s: string, t: string, d: nat, a: nat, b: nat)
    requires |s| == d + |t| && forall x :: 0 <= x < |t| ==> t[x] == s[d + x]
    requires d <= a <= b <= |s|
    ensures s[a..b] == t[a - d..b - d]
  {
    forall x | 0 <= x < b - a ensures s[a..b][x] == t[a - d..b - d][x] {
      assert t[a - d + x] == s[d + (a - d + x)];
    }
  }

  /** A replacer that never lengthens a (non-empty) span never lengthens the text. */
  lemma {:induction false} ReplaceFromNoLonger(m: Matcher, f: Replacer, s: string, i: nat)
    requires i <= |s|
    requires forall t :: |t| > 0 ==> |f(t)| <= |t|
    ensures |ReplaceFrom(m, f, s, i)| <= |s| - i
    decreases |s| - i
  {
    if i < |s| {
      if Hits(m, s, i) {
        ReplaceFromNoLonger(m, f, s, i + m(s, i).value);
      } else {
        ReplaceFromNoLonger(m, f, s, i + 1);
      }
    }
  }

  /**
   * If every match is rewritten to something strictly shorter and the
   * pattern matches somewhere, the text gets strictly shorter.
   */
  lemma {:induction false} ReplaceFromShorter(m: Matcher, f: Replacer, s: string, i: nat, p: nat)
    requires i <= p && Hits(m, s, p)
    requires forall t :: |t| > 0 ==> |f(t)| <= |t|
    requires forall q: nat :: Hits(m, s, q) ==> |f(s[q..q + m(s, q).value])| < m(s, q).value
    ensures |ReplaceFrom(m, f, s, i)| < |s| - i
    decreases p - i
  {
    if Hits(m, s, i) {
      ReplaceFromNoLonger(m, f, s, i + m(s, i).value);
    } else {
      ReplaceFromShorter(m, f, s, i + 1, p);
    }
  }
}
