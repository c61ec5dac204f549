/**
 * The last three steps of `cleaner`: every character of `all_punctuation`
 * becomes a space, `" ".join(text.split())` collapses whitespace, and
 * `lower()` folds case.
 */
module Finaliser {
  import opened Chars

  /**
   * `string.punctuation` without `$`, followed by the five extra marks
   * U+2018, U+2019, U+00B7, U+2014 and U+00BB, in the source's order.
   */
  const AllPunctuation: string :=
    "!\"#%&'()*+,-./:;<=>?@[\\]^_`{|}~" + "\U{2018}\U{2019}\U{B7}\U{2014}\U{BB}"

  predicate IsPunctuation(c: char) {
    c in AllPunctuation
  }

  /**
   * `text.replace(c, " ")` for one character `c`: the length is kept, no `c`
   * is left (unless `c` is the space itself), every other character stays,
   * and whatever changed became a space.
   */
  function ReplaceWithSpace(s: string, c: char): (r: string)
    ensures |r| == |s|
    ensures c != ' ' ==> c !in r
    ensures forall k :: 0 <= k < |s| && s[k] != c ==> r[k] == s[k]
    ensures forall k :: 0 <= k < |s| && r[k] != s[k] ==> r[k] == ' '
  {
    seq(|s|, k requires 0 <= k < |s| => if s[k] == c then ' ' else s[k])
  }

  /**
   * The loop `for punct in marks: text = text.replace(punct, " ")`: it has
   * the effect of one pass that puts a space wherever any of the marks was.
   */
  function BlankEach(s: string, marks: string): (r: string)
    ensures |r| == |s|
    ensures forall k :: 0 <= k < |s| ==> r[k] == (if s[k] in marks then ' ' else s[k])
    decreases |marks|
  {
    if |marks| == 0 then s
    else
      var t := ReplaceWithSpace(s, marks[0]);
      var r := BlankEach(t, marks[1..]);
      assert forall k :: 0 <= k < |s| ==> r[k] == (if s[k] in marks then ' ' else s[k]) by {
        forall k | 0 <= k < |s|
          ensures r[k] == (if s[k] in marks then ' ' else s[k])
        {
          assert s[k] in marks <==> s[k] == marks[0] || s[k] in marks[1..] by {
            assert marks == [marks[0]] + marks[1..];
          }
          if s[k] == marks[0] {
            assert t[k] == ' ' by {
              if marks[0] != ' ' {
                assert t[k] != marks[0];
              }
            }
          }
        }
      }
      r
  }

  /**
   * The punctuation loop of the finaliser: every character of
   * `all_punctuation`, and no other character, becomes a space.
   */
  function BlankPunctuation(s: string): (r: string)
    ensures |r| == |s|
    ensures forall k :: 0 <= k < |s| ==> r[k] == (if IsPunctuation(s[k]) then ' ' else s[k])
    ensures NoPunctuation(r)
  {
    assert !IsPunctuation(' ');
    BlankEach(s, AllPunctuation)
  }

  /** The length of the run of non-whitespace characters at the start of `s`. */
  function WordLen(s: string): (n: nat)
    ensures n <= |s|
    ensures forall k :: 0 <= k < n ==> !IsSpace(s[k])
    ensures n == |s| || IsSpace(s[n])
    decreases |s|
  {
    if |s| == 0 || IsSpace(s[0]) then 0 else 1 + WordLen(s[1..])
  }

  /** A non-empty string without whitespace, as `split()` produces. */
  predicate IsWord(w: string) {
    |w| > 0 && forall k :: 0 <= k < |w| ==> !IsSpace(w[k])
  }

  predicate AllWords(ws: seq<string>) {
    forall k :: 0 <= k < |ws| ==> IsWord(ws[k])
  }

  /** `str.split()` with no argument: the maximal runs of non-whitespace, in order. */
  function Split(s: string): (ws: seq<string>)
    ensures AllWords(ws)
    decreases |s|
  {
    if |s| == 0 then []
    else if IsSpace(s[0]) then Split(s[1..])
    else
      var n := WordLen(s);
      [s[..n]] + Split(s[n..])
  }

  /** `" ".join(ws)`; splitting the result gives the words back. */
  function Join(ws: seq<string>): (r: string)
    ensures AllWords(ws) ==> Split(r) == ws
    decreases |ws|
  {
    if |ws| == 0 then ""
    else if |ws| == 1 then
      SplitJoinStep(ws[0], "");
      ws[0]
    else
      SplitJoinStep(ws[0], Join(ws[1..]));
      assert AllWords(ws) ==> AllWords(ws[1..]);
      assert ws == [ws[0]] + ws[1..];
      ws[0] + " " + Join(ws[1..])
  }

  /**
   * The finaliser of `cleaner`. Its output holds no punctuation character,
   * no upper-case letter, and no whitespace except single spaces between
   * words.
   */
  function Finalize(s: string): (r: string)
    ensures Canonical(r)
  {
    var t := BlankPunctuation(s);
    SplitNoPunctuation(t);
    JoinedWordsCanonical(Split(t));
    LowerString(Join(Split(t)))
  }

  predicate NoPunctuation(s: string) {
    forall k :: 0 <= k < |s| ==> !IsPunctuation(s[k])
  }

  /**
   * Whitespace occurs only as single spaces between two non-whitespace
   * characters: none leading, none trailing, never two in a row.
   */
  predicate NormalSpacing(t: string) {
    forall k :: 0 <= k < |t| && IsSpace(t[k]) ==>
      t[k] == ' ' && 0 < k < |t| - 1 && !IsSpace(t[k - 1]) && !IsSpace(t[k + 1])
  }

  /** The shape of the cleaner's output. */
  predicate Canonical(t: string) {
    && NormalSpacing(t)
    && NoPunctuation(t)
    && forall k :: 0 <= k < |t| ==> !IsUpper(t[k])
  }

  lemma {:induction false} WordLenOfWord(w: string, rest: string)
    requires IsWord(w) && (|rest| == 0 || IsSpace(rest[0]))
    ensures WordLen(w + rest) == |w|
    decreases |w|
  {
    assert (w + rest)[0] == w[0];
    if |w| > 1 {
      assert (w + rest)[1..] == w[1..] + rest;
      WordLenOfWord(w[1..], rest);
    } else {
      assert (w + rest)[1..] == rest;
    }
  }

  /** A word followed by whitespace (or by nothing) is split off whole. */
  lemma SplitAfterWord(w: string, rest: string)
    requires IsWord(w) && (|rest| == 0 || IsSpace(rest[0]))
    ensures Split(w + rest) == [w] + Split(rest)
  {
    WordLenOfWord(w, rest);
    assert (w + rest)[..|w|] == w && (w + rest)[|w|..] == rest;
  }

  lemma SplitAfterSpace(c: char, rest: string)
    requires IsSpace(c)
    ensures Split([c] + rest) == Split(rest)
  {
    assert ([c] + rest)[1..] == rest;
  }

  /** One word of `" ".join`, split back off. */
  lemma SplitJoinStep(w: string, j: string)
    ensures IsWord(w) ==> Split(w) == [w] && Split(w + " " + j) == [w] + Split(j)
  {
    if IsWord(w) {
      SplitAfterWord(w, "");
      assert w + "" == w;
      assert w + " " + j == w + ([' '] + j);
      SplitAfterWord(w, [' '] + j);
      SplitAfterSpace(' ', j);
    }
  }

  /** Joined words start and end with a non-whitespace character. */
  lemma {:induction false} JoinEnds(ws: seq<string>)
    requires AllWords(ws) && |ws| > 0
    ensures |Join(ws)| > 0 && !IsSpace(Join(ws)[0]) && !IsSpace(Join(ws)[|Join(ws)| - 1])
    decreases |ws|
  {
    if |ws| > 1 {
      assert AllWords(ws[1..]);
      JoinEnds(ws[1..]);
    }
  }

  lemma JoinStep(w: string, j: string)
    requires IsWord(w) && |j| > 0 && !IsSpace(j[0]) && NormalSpacing(j)
    ensures NormalSpacing(w + " " + j)
  {
    var t := w + " " + j;
    forall k | 0 <= k < |t|
      ensures IsSpace(t[k]) ==>
        t[k] == ' ' && 0 < k < |t| - 1 && !IsSpace(t[k - 1]) && !IsSpace(t[k + 1])
    {
      if k < |w| {
        assert t[k] == w[k];
      } else if k > |w| {
        assert t[k] == j[k - |w| - 1];
        assert t[k - 1] == (if k - 1 == |w| then ' ' else j[k - |w| - 2]);
        if k + 1 < |t| {
          assert t[k + 1] == j[k - |w|];
        }
      }
    }
  }

  /** `" ".join` of words is normally spaced. */
  lemma {:induction false} JoinIsNormal(ws: seq<string>)
    requires AllWords(ws)
    ensures NormalSpacing(Join(ws))
    decreases |ws|
  {
    if |ws| > 1 {
      assert AllWords(ws[1..]);
      JoinIsNormal(ws[1..]);
      JoinEnds(ws[1..]);
      JoinStep(ws[0], Join(ws[1..]));
    }
  }

  /** `" ".join` brings in no punctuation. */
  lemma {:induction false} JoinNoPunctuation(ws: seq<string>)
    requires forall k :: 0 <= k < |ws| ==> NoPunctuation(ws[k])
    ensures NoPunctuation(Join(ws))
    decreases |ws|
  {
    if |ws| > 1 {
      JoinNoPunctuation(ws[1..]);
      var t := Join(ws);
      assert t == ws[0] + " " + Join(ws[1..]);
      forall k | 0 <= k < |t| ensures !IsPunctuation(t[k]) {
        if k < |ws[0]| {
          assert t[k] == ws[0][k];
        } else if k > |ws[0]| {
          assert t[k] == Join(ws[1..])[k - |ws[0]| - 1];
        } else {
          assert t[k] == ' ';
        }
      }
    }
  }

  /** The words of a text free of punctuation are free of punctuation. */
  lemma {:induction false} SplitNoPunctuation(x: string)
    requires NoPunctuation(x)
    ensures forall k :: 0 <= k < |Split(x)| ==> NoPunctuation(Split(x)[k])
    decreases |x|
  {
    if |x| > 0 {
      if IsSpace(x[0]) {
        SplitNoPunctuation(x[1..]);
      } else {
        SplitNoPunctuation(x[WordLen(x)..]);
      }
    }
  }

  function LowerWords(ws: seq<string>): seq<string> {
    seq(|ws|, k requires 0 <= k < |ws| => LowerString(ws[k]))
  }

  lemma LowerAppend(a: string, b: string)
    ensures LowerString(a + b) == LowerString(a) + LowerString(b)
  {
  }

  /** Lowering the joined text lowers each word and leaves the separators. */
  lemma {:induction false} LowerJoin(ws: seq<string>)
    ensures LowerString(Join(ws)) == Join(LowerWords(ws))
    decreases |ws|
  {
    if |ws| > 1 {
      LowerJoin(ws[1..]);
      assert LowerWords(ws)[1..] == LowerWords(ws[1..]);
      LowerAppend(ws[0] + " ", Join(ws[1..]));
      LowerAppend(ws[0], " ");
    }
  }

  lemma LowerWordsKeepShape(ws: seq<string>)
    requires AllWords(ws)
    requires forall k :: 0 <= k < |ws| ==> NoPunctuation(ws[k])
    ensures AllWords(LowerWords(ws))
    ensures forall k :: 0 <= k < |ws| ==> NoPunctuation(LowerWords(ws)[k])
    ensures forall k, j :: 0 <= k < |ws| && 0 <= j < |LowerWords(ws)[k]| ==>
              !IsUpper(LowerWords(ws)[k][j])
  {
    forall k, j | 0 <= k < |ws| && 0 <= j < |ws[k]|
      ensures !IsSpace(LowerWords(ws)[k][j]) && !IsPunctuation(LowerWords(ws)[k][j])
      ensures !IsUpper(LowerWords(ws)[k][j])
    {
      LowerKeepsClasses(ws[k][j]);
      LowerNotPunctuation(ws[k][j]);
    }
  }

  lemma LowerNotPunctuation(c: char)
    requires !IsPunctuation(c)
    ensures !IsPunctuation(Lower(c))
  {
  }

  /** The finaliser's output is the lowered words of the blanked text, joined by single spaces. */
  lemma FinalizeIsJoinedWords(s: string)
    ensures Finalize(s) == Join(LowerWords(Split(BlankPunctuation(s))))
    ensures AllWords(LowerWords(Split(BlankPunctuation(s))))
  {
    var ws := Split(BlankPunctuation(s));
    LowerJoin(ws);
    SplitNoPunctuation(BlankPunctuation(s));
    LowerWordsKeepShape(ws);
  }

  lemma {:induction false} JoinNoUpper(ws: seq<string>)
    requires forall k, j :: 0 <= k < |ws| && 0 <= j < |ws[k]| ==> !IsUpper(ws[k][j])
    ensures forall k :: 0 <= k < |Join(ws)| ==> !IsUpper(Join(ws)[k])
    decreases |ws|
  {
    if |ws| > 1 {
      JoinNoUpper(ws[1..]);
      var t := Join(ws);
      assert t == ws[0] + " " + Join(ws[1..]);
      forall k | 0 <= k < |t| ensures !IsUpper(t[k]) {
        if k < |ws[0]| {
          assert t[k] == ws[0][k];
        } else if k > |ws[0]| {
          assert t[k] == Join(ws[1..])[k - |ws[0]| - 1];
        }
      }
    }
  }

  /** Words free of whitespace and punctuation, joined and lowered, are in canonical form. */
  lemma JoinedWordsCanonical(ws: seq<string>)
    requires AllWords(ws)
    requires forall k :: 0 <= k < |ws| ==> NoPunctuation(ws[k])
    ensures Canonical(LowerString(Join(ws)))
  {
    var lws := LowerWords(ws);
    LowerJoin(ws);
    LowerWordsKeepShape(ws);
    JoinIsNormal(lws);
    JoinNoPunctuation(lws);
    JoinNoUpper(lws);
  }

  lemma BlankNothing(x: string)
    requires NoPunctuation(x)
    ensures BlankPunctuation(x) == x
  {
  }

  lemma LowerNothing(x: string)
    requires forall k :: 0 <= k < |x| ==> !IsUpper(x[k])
    ensures LowerString(x) == x
  {
  }

  /** Finalising twice is finalising once. */
  lemma FinalizeIdempotent(s: string)
    ensures Finalize(Finalize(s)) == Finalize(s)
  {
    var t := Finalize(s);
    var ws := LowerWords(Split(BlankPunctuation(s)));
    FinalizeIsJoinedWords(s);
    BlankNothing(t);
    LowerNothing(t);
  }

  /** Characters the finaliser keeps: neither whitespace nor punctuation. */
  predicate Kept(c: char) {
    !IsSpace(c) && !IsPunctuation(c)
  }

  /** The kept characters of `s`, in order. */
  function Keep(s: string): (r: string)
    ensures forall c :: c in r <==> c in s && Kept(c)
    decreases |s|
  {
    if |s| == 0 then []
    else
      assert s == [s[0]] + s[1..];
      (if Kept(s[0]) then [s[0]] else []) + Keep(s[1..])
  }

  lemma {:induction false} KeepAppend(a: string, b: string)
    ensures Keep(a + b) == Keep(a) + Keep(b)
    decreases |a|
  {
    if |a| == 0 {
      assert a + b == b;
    } else {
      assert (a + b)[0] == a[0] && (a + b)[1..] == a[1..] + b;
      KeepAppend(a[1..], b);
    }
  }

  /** Texts that agree on every position where either holds a kept character keep the same. */
  lemma {:induction false} KeepAgrees(x: string, y: string)
    requires |x| == |y|
    requires forall k :: 0 <= k < |x| && (Kept(x[k]) || Kept(y[k])) ==> x[k] == y[k]
    ensures Keep(x) == Keep(y)
    decreases |x|
  {
    if |x| > 0 {
      KeepAgrees(x[1..], y[1..]);
    }
  }

  /** Concatenation of a list of words. */
  function Concat(ws: seq<string>): string
    decreases |ws|
  {
    if |ws| == 0 then "" else ws[0] + Concat(ws[1..])
  }

  lemma {:induction false} KeepJoin(ws: seq<string>)
    ensures Keep(Join(ws)) == Keep(Concat(ws))
    decreases |ws|
  {
    if |ws| == 1 {
      assert Concat(ws) == ws[0] + Concat([]);
      assert ws[0] + "" == ws[0];
    } else if |ws| > 1 {
      var j := Join(ws[1..]);
      var c := Concat(ws[1..]);
      KeepJoin(ws[1..]);
      assert Join(ws) == (ws[0] + " ") + j;
      KeepAppend(ws[0] + " ", j);
      KeepAppend(ws[0], " ");
      assert Keep(" ") == [] by {
        assert !Kept(' ');
        assert " "[1..] == [];
      }
      assert Keep(ws[0] + " ") == Keep(ws[0]);
      assert Concat(ws) == ws[0] + c;
      KeepAppend(ws[0], c);
    }
  }

  lemma {:induction false} KeepSplit(x: string)
    ensures Keep(Concat(Split(x))) == Keep(x)
    decreases |x|
  {
    if |x| > 0 {
      if IsSpace(x[0]) {
        KeepSplit(x[1..]);
      } else {
        KeepSplit(x[WordLen(x)..]);
        KeepSplitWord(x);
      }
    }
  }

  lemma KeepSplitWord(x: string)
    requires |x| > 0 && !IsSpace(x[0])
    requires Keep(Concat(Split(x[WordLen(x)..]))) == Keep(x[WordLen(x)..])
    ensures Keep(Concat(Split(x))) == Keep(x)
  {
    var n := WordLen(x);
    var rest := Concat(Split(x[n..]));
    SplitFirstWord(x);
    ConcatCons(x[..n], Split(x[n..]));
    KeepAppend(x[..n], rest);
    KeepAt(x, n);
  }

  lemma KeepAt(x: string, n: nat)
    requires n <= |x|
    ensures Keep(x) == Keep(x[..n]) + Keep(x[n..])
  {
    assert x == x[..n] + x[n..];
    KeepAppend(x[..n], x[n..]);
  }

  lemma SplitFirstWord(x: string)
    requires |x| > 0 && !IsSpace(x[0])
    ensures Split(x) == [x[..WordLen(x)]] + Split(x[WordLen(x)..])
  {
  }

  lemma ConcatCons(w: string, ws: seq<string>)
    ensures Concat([w] + ws) == w + Concat(ws)
  {
    assert ([w] + ws)[0] == w && ([w] + ws)[1..] == ws;
  }

  lemma UpperNotPunctuation(c: char)
    requires IsUpper(c)
    ensures !IsPunctuation(c)
  {
  }

  lemma KeptLower(c: char)
    ensures Kept(Lower(c)) == Kept(c)
  {
    LowerKeepsClasses(c);
    if IsUpper(c) {
      UpperNotPunctuation(c);
      LowerNotPunctuation(c);
    }
  }

  lemma {:induction false} KeepLower(t: string)
    ensures Keep(LowerString(t)) == LowerString(Keep(t))
    decreases |t|
  {
    if |t| > 0 {
      var l := LowerString(t);
      var head: string := if Kept(t[0]) then [t[0]] else [];
      KeptLower(t[0]);
      assert l[0] == Lower(t[0]);
      assert l[1..] == LowerString(t[1..]);
      assert Keep(l) == (if Kept(l[0]) then [l[0]] else []) + Keep(l[1..]);
      KeepLower(t[1..]);
      assert Keep(t) == head + Keep(t[1..]);
      LowerAppend(head, Keep(t[1..]));
      assert LowerString(head) == (if Kept(l[0]) then [l[0]] else []);
    }
  }

  /**
   * Nothing but whitespace and punctuation is lost: the finaliser keeps every
   * other character of its input, in order, lowered.
   */
  lemma FinalizeKeepsContent(s: string)
    ensures Keep(Finalize(s)) == LowerString(Keep(s))
  {
    var b := BlankPunctuation(s);
    assert !Kept(' ');
    KeepAgrees(b, s);
    KeepSplit(b);
    KeepJoin(Split(b));
    KeepLower(Join(Split(b)));
  }

  /** Dollar signs survive the finaliser. */
  lemma DollarSurvives(s: string)
    requires '$' in s
    ensures '$' in Finalize(s)
  {
    assert Kept('$');
    assert '$' in Keep(s);
    FinalizeKeepsContent(s);
    assert '$' in LowerString(Keep(s)) by {
      var k :| 0 <= k < |Keep(s)| && Keep(s)[k] == '$';
      assert LowerString(Keep(s))[k] == '$';
    }
  }

  /** Two texts put together with one space between them, unless one of them is empty. */
  function Glue(x: string, y: string): string {
    if |x| == 0 then y else if |y| == 0 then x else x + " " + y
  }

  lemma {:induction false} WordLenBeforeSpace(x: string, rest: string)
    requires |rest| > 0 && IsSpace(rest[0])
    ensures WordLen(x + rest) == WordLen(x)
    decreases |x|
  {
    if |x| == 0 {
      assert x + rest == rest;
    } else {
      assert (x + rest)[0] == x[0] && (x + rest)[1..] == x[1..] + rest;
      WordLenBeforeSpace(x[1..], rest);
    }
  }

  /** `split()` breaks the text at any whitespace character. */
  lemma {:induction false} SplitAtSpace(x: string, q: char, y: string)
    requires IsSpace(q)
    ensures Split(x + [q] + y) == Split(x) + Split(y)
    decreases |x|
  {
    var t := x + [q] + y;
    if |x| == 0 {
      assert t == [q] + y;
      SplitAfterSpace(q, y);
    } else if IsSpace(x[0]) {
      assert t[0] == x[0] && t[1..] == x[1..] + [q] + y;
      SplitAtSpace(x[1..], q, y);
    } else {
      assert t == x + ([q] + y);
      WordLenBeforeSpace(x, [q] + y);
      var n := WordLen(x);
      assert t[..n] == x[..n];
      assert t[n..] == x[n..] + [q] + y;
      SplitAtSpace(x[n..], q, y);
    }
  }

  lemma {:induction false} JoinAppend(a: seq<string>, b: seq<string>)
    requires AllWords(a) && AllWords(b)
    ensures Join(a + b) == Glue(Join(a), Join(b))
    decreases |a|
  {
    if |a| == 0 {
      assert a + b == b;
    } else if |b| == 0 {
      assert a + b == a;
    } else if |a| == 1 {
      JoinEnds(b);
      assert (a + b)[0] == a[0] && (a + b)[1..] == b;
    } else {
      assert AllWords(a[1..]);
      JoinAppend(a[1..], b);
      JoinAppendStep(a, b);
    }
  }

  lemma JoinAppendStep(a: seq<string>, b: seq<string>)
    requires AllWords(a) && AllWords(b) && |a| > 1 && |b| > 0
    requires Join(a[1..] + b) == Glue(Join(a[1..]), Join(b))
    ensures Join(a + b) == Glue(Join(a), Join(b))
  {
    assert AllWords(a[1..]);
    JoinEnds(a[1..]);
    JoinEnds(b);
    ConsAppend(a, b);
    GlueStep(a[0], Join(a[1..]), Join(b));
  }

  lemma ConsAppend(a: seq<string>, b: seq<string>)
    requires |a| > 0
    ensures (a + b)[0] == a[0] && (a + b)[1..] == a[1..] + b
  {
  }

  lemma GlueStep(w: string, x: string, y: string)
    requires |w| > 0 && |x| > 0 && |y| > 0
    ensures w + " " + Glue(x, y) == Glue(w + " " + x, y)
  {
    assert w + " " + (x + " " + y) == (w + " " + x) + " " + y;
  }

  /**
   * A punctuation mark or whitespace character between two texts becomes a
   * word break, never a deletion: the finaliser's output is that of the two
   * parts, separated by one space.
   */
  lemma BlankAround(a: string, p: char, b: string)
    requires IsPunctuation(p) || IsSpace(p)
    ensures IsSpace(if IsPunctuation(p) then ' ' else p)
    ensures BlankPunctuation(a + [p] + b)
         == BlankPunctuation(a) + [if IsPunctuation(p) then ' ' else p] + BlankPunctuation(b)
  {
    var t := a + [p] + b;
    var q := if IsPunctuation(p) then ' ' else p;
    var x, y := BlankPunctuation(t), BlankPunctuation(a) + [q] + BlankPunctuation(b);
    assert |x| == |y|;
    forall k | 0 <= k < |x|
      ensures x[k] == y[k]
    {
      if k < |a| {
        assert t[k] == a[k];
      } else if k > |a| {
        assert t[k] == b[k - |a| - 1];
      }
    }
  }

  lemma GlueLower(x: string, y: string)
    ensures LowerString(Glue(x, y)) == Glue(LowerString(x), LowerString(y))
  {
    if |x| > 0 && |y| > 0 {
      LowerAppend(x + " ", y);
      LowerAppend(x, " ");
    }
  }

  /**
   * A punctuation mark or whitespace character between two texts becomes a
   * word break, never a deletion: the finaliser's output is that of the two
   * parts, separated by one space.
   */
  lemma FinalizeSeparates(a: string, p: char, b: string)
    requires IsPunctuation(p) || IsSpace(p)
    ensures Finalize(a + [p] + b) == Glue(Finalize(a), Finalize(b))
  {
    var q := if IsPunctuation(p) then ' ' else p;
    var ba, bb := BlankPunctuation(a), BlankPunctuation(b);
    BlankAround(a, p, b);
    SplitAtSpace(ba, q, bb);
    var wa, wb := Split(ba), Split(bb);
    JoinAppend(wa, wb);
    GlueLower(Join(wa), Join(wb));
  }
}
