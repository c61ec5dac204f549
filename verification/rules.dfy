/**
 * `RegexSubstitution` and `RegexRemoval`, and the two passes that apply
 * them: substitutions sorted stably by priority (lower first, ties in
 * catalogue order) and folded over the text, each rule seeing the output of
 * the ones before it; removals afterwards in catalogue order, each match
 * becoming one space.
 */
module Rules {
  import opened Wrappers
  import opened Rewrite
  import opened Patterns

  /** A rewrite rule; the replacement is literal text (no rule uses group references). */
  datatype Substitution = Substitution(
    description: string,
    pattern: Pattern,
    replacement: string,
    priority: int := 10)

  /** A rule whose matches are replaced by a single space. */
  datatype Removal = Removal(description: string, pattern: Pattern)

  /** `re.sub(rule.regex, rule.replacement, text)`; a rule that matches nowhere changes nothing. */
  function Substitute(r: Substitution, o: Oracle, s: string): (t: string)
    ensures (forall q :: 0 <= q < |s| ==> !Hits(MatcherOf(r.pattern, o), s, q)) ==> t == s
  {
    ReplaceAll(MatcherOf(r.pattern, o), _ => r.replacement, s)
  }

  /**
   * `re.sub(removal.regex, " ", text)`. Every match is at least one
   * character, so replacing it with one space never lengthens the text.
   */
  function Remove(r: Removal, o: Oracle, s: string): (t: string)
    ensures (forall q :: 0 <= q < |s| ==> !Hits(MatcherOf(r.pattern, o), s, q)) ==> t == s
    ensures |t| <= |s|
  {
    ReplaceAll(MatcherOf(r.pattern, o), _ => " ", s)
  }

  /** The `for` loop over substitutions: a left fold, one rule after another. */
  function ApplyInOrder(rs: seq<Substitution>, o: Oracle, s: string): string
    decreases |rs|
  {
    if |rs| == 0 then s else ApplyInOrder(rs[1..], o, Substitute(rs[0], o, s))
  }

  /** The `for` loop over removals; no removal lengthens the text, so neither does the loop. */
  function RemoveInOrder(rs: seq<Removal>, o: Oracle, s: string): (r: string)
    ensures |r| <= |s|
    decreases |rs|
  {
    if |rs| == 0 then s else RemoveInOrder(rs[1..], o, Remove(rs[0], o, s))
  }

  /** Each rule's priority is at most that of the rule after it. */
  ghost predicate SortedByPriority(t: seq<Substitution>) {
    forall i :: 0 < i < |t| ==> t[i - 1].priority <= t[i].priority
  }

  /** Puts `x` in front of the first rule whose priority is at least its own. */
  function Insert(x: Substitution, t: seq<Substitution>): (r: seq<Substitution>)
    requires SortedByPriority(t)
    ensures SortedByPriority(r)
    ensures multiset(r) == multiset(t) + multiset{x}
    ensures r[0] == x || r[0] == t[0]
    decreases |t|
  {
    if |t| == 0 || x.priority <= t[0].priority then
      [x] + t
    else
      var rest := Insert(x, t[1..]);
      assert t == [t[0]] + t[1..];
      assert t[0].priority <= rest[0].priority by {
        if |t| > 1 {
          assert t[1..][0] == t[1];
        }
      }
      [t[0]] + rest
  }

  /** `sorted(substitutions, key=lambda s: s.priority)`, as a stable insertion sort. */
  function SortByPriority(rs: seq<Substitution>): (r: seq<Substitution>)
    ensures SortedByPriority(r)
    ensures multiset(r) == multiset(rs)
    ensures |r| == |rs|
    decreases |rs|
  {
    if |rs| == 0 then []
    else
      assert rs == [rs[0]] + rs[1..];
      Insert(rs[0], SortByPriority(rs[1..]))
  }

  /** The rules of `t` with priority `p`, in their order in `t`. */
  function WithPriority(t: seq<Substitution>, p: int): seq<Substitution>
    decreases |t|
  {
    if |t| == 0 then []
    else (if t[0].priority == p then [t[0]] else []) + WithPriority(t[1..], p)
  }

  /** The rules of `t` with priority below `p`, in order. */
  function Below(t: seq<Substitution>, p: int): (r: seq<Substitution>)
    ensures forall k :: 0 <= k < |r| ==> r[k].priority < p
    decreases |t|
  {
    if |t| == 0 then []
    else (if t[0].priority < p then [t[0]] else []) + Below(t[1..], p)
  }

  /** The rules of `t` with priority `p` or above, in order. */
  function AtLeast(t: seq<Substitution>, p: int): (r: seq<Substitution>)
    ensures forall k :: 0 <= k < |r| ==> p <= r[k].priority
    decreases |t|
  {
    if |t| == 0 then []
    else (if p <= t[0].priority then [t[0]] else []) + AtLeast(t[1..], p)
  }

  /**
   * The substitution pass of `cleaner`. When the rules are already in
   * priority order (for instance all at the default priority), the sort
   * leaves them alone and the pass runs them in catalogue order.
   */
  function SubstitutionPass(rs: seq<Substitution>, o: Oracle, s: string): (r: string)
    ensures SortedByPriority(rs) ==> r == ApplyInOrder(rs, o, s)
  {
    SortKeepsSorted(rs);
    ApplyInOrder(SortByPriority(rs), o, s)
  }

  /** The removal pass of `cleaner` (catalogue order, no priorities); it never lengthens the text. */
  function RemovalPass(rs: seq<Removal>, o: Oracle, s: string): (r: string)
    ensures |r| <= |s|
  {
    RemoveInOrder(rs, o, s)
  }

  /** A stable sort leaves a list that is already in priority order exactly as it is. */
  lemma {:induction false} SortKeepsSorted(rs: seq<Substitution>)
    ensures SortedByPriority(rs) ==> SortByPriority(rs) == rs
    decreases |rs|
  {
    if |rs| > 0 && SortedByPriority(rs) {
      SortedTail(rs);
      SortKeepsSorted(rs[1..]);
      assert SortByPriority(rs) == Insert(rs[0], rs[1..]);
      assert rs == [rs[0]] + rs[1..];
    }
  }

  lemma {:induction false} WithPriorityAppend(a: seq<Substitution>, b: seq<Substitution>, p: int)
    ensures WithPriority(a + b, p) == WithPriority(a, p) + WithPriority(b, p)
    decreases |a|
  {
    if |a| > 0 {
      assert (a + b)[0] == a[0];
      assert (a + b)[1..] == a[1..] + b;
      WithPriorityAppend(a[1..], b, p);
    } else {
      assert a + b == b;
    }
  }

  lemma SortedTail(t: seq<Substitution>)
    requires |t| > 0 && SortedByPriority(t)
    ensures SortedByPriority(t[1..])
  {
    assert forall i :: 0 < i < |t| - 1 ==> t[1..][i - 1] == t[i] && t[1..][i] == t[i + 1];
  }

  lemma WithPriorityCons(y: Substitution, t: seq<Substitution>, p: int)
    ensures WithPriority([y] + t, p) == (if y.priority == p then [y] else []) + WithPriority(t, p)
  {
    assert ([y] + t)[0] == y && ([y] + t)[1..] == t;
  }

  lemma {:induction false} InsertWithPriority(x: Substitution, t: seq<Substitution>, p: int)
    requires SortedByPriority(t)
    ensures WithPriority(Insert(x, t), p)
         == (if x.priority == p then [x] else []) + WithPriority(t, p)
    decreases |t|
  {
    if |t| == 0 || x.priority <= t[0].priority {
      assert Insert(x, t) == [x] + t;
      WithPriorityCons(x, t, p);
    } else {
      SortedTail(t);
      var rest := Insert(x, t[1..]);
      assert Insert(x, t) == [t[0]] + rest;
      InsertWithPriority(x, t[1..], p);
      WithPriorityCons(t[0], rest, p);
      WithPriorityCons(t[0], t[1..], p);
      assert t == [t[0]] + t[1..];
    }
  }

  /**
   * `sorted` is stable: among the rules of one priority, the sorted list
   * keeps exactly the catalogue's rules of that priority in catalogue order.
   */
  lemma {:induction false} SortIsStable(rs: seq<Substitution>, p: int)
    ensures WithPriority(SortByPriority(rs), p) == WithPriority(rs, p)
    decreases |rs|
  {
    if |rs| > 0 {
      SortIsStable(rs[1..], p);
      InsertWithPriority(rs[0], SortByPriority(rs[1..]), p);
    }
  }

  lemma SortedAppendTail(a: seq<Substitution>, b: seq<Substitution>)
    requires |a| > 0 && SortedByPriority(a + b)
    ensures SortedByPriority(a[1..] + b)
  {
    assert (a + b)[1..] == a[1..] + b;
    SortedTail(a + b);
  }

  /** Inserting a rule that belongs before all of `b` leaves `b` at the end. */
  lemma {:induction false} InsertBeforeTail(x: Substitution, a: seq<Substitution>, b: seq<Substitution>)
    requires SortedByPriority(a) && SortedByPriority(a + b)
    requires |b| == 0 || x.priority <= b[0].priority
    ensures Insert(x, a + b) == Insert(x, a) + b
    decreases |a|
  {
    if |a| == 0 {
      assert a + b == b;
    } else if x.priority <= a[0].priority {
      assert (a + b)[0] == a[0];
    } else {
      assert (a + b)[0] == a[0];
      assert (a + b)[1..] == a[1..] + b;
      SortedTail(a);
      SortedAppendTail(a, b);
      InsertBeforeTail(x, a[1..], b);
    }
  }

  /** Inserting a rule that belongs after all of `a` leaves `a` at the front. */
  lemma {:induction false} InsertAfterHead(x: Substitution, a: seq<Substitution>, b: seq<Substitution>)
    requires SortedByPriority(b) && SortedByPriority(a + b)
    requires forall k :: 0 <= k < |a| ==> a[k].priority < x.priority
    ensures Insert(x, a + b) == a + Insert(x, b)
    decreases |a|
  {
    if |a| == 0 {
      assert a + b == b;
    } else {
      assert (a + b)[0] == a[0];
      assert (a + b)[1..] == a[1..] + b;
      SortedAppendTail(a, b);
      InsertAfterHead(x, a[1..], b);
      assert a == [a[0]] + a[1..];
    }
  }

  lemma SortedConcat(a: seq<Substitution>, b: seq<Substitution>)
    requires SortedByPriority(a) && SortedByPriority(b)
    requires |a| == 0 || |b| == 0 || a[|a| - 1].priority <= b[0].priority
    ensures SortedByPriority(a + b)
  {
  }

  /** Every rule the sort puts out came from its input. */
  lemma SortedFrom(rs: seq<Substitution>, y: Substitution)
    requires y in SortByPriority(rs)
    ensures y in rs
  {
    assert y in multiset(SortByPriority(rs));
  }

  /** The sorted rules below `p` all rank before the sorted rules at `p` or above. */
  lemma SortedPartsInOrder(rs: seq<Substitution>, p: int)
    ensures forall k :: 0 <= k < |SortByPriority(Below(rs, p))| ==>
              SortByPriority(Below(rs, p))[k].priority < p
    ensures forall k :: 0 <= k < |SortByPriority(AtLeast(rs, p))| ==>
              p <= SortByPriority(AtLeast(rs, p))[k].priority
    ensures SortedByPriority(SortByPriority(Below(rs, p)) + SortByPriority(AtLeast(rs, p)))
  {
    var a := SortByPriority(Below(rs, p));
    var b := SortByPriority(AtLeast(rs, p));
    forall k | 0 <= k < |a| ensures a[k].priority < p {
      SortedFrom(Below(rs, p), a[k]);
    }
    forall k | 0 <= k < |b| ensures p <= b[k].priority {
      SortedFrom(AtLeast(rs, p), b[k]);
    }
    SortedConcat(a, b);
  }

  lemma SplitStepBelow(rs: seq<Substitution>, p: int)
    requires |rs| > 0 && rs[0].priority < p
    requires SortByPriority(rs[1..])
          == SortByPriority(Below(rs[1..], p)) + SortByPriority(AtLeast(rs[1..], p))
    ensures SortByPriority(rs) == SortByPriority(Below(rs, p)) + SortByPriority(AtLeast(rs, p))
  {
    var x, lo, hi := rs[0], Below(rs[1..], p), AtLeast(rs[1..], p);
    SortedPartsInOrder(rs[1..], p);
    assert Below(rs, p) == [x] + lo;
    assert ([x] + lo)[0] == x && ([x] + lo)[1..] == lo;
    assert AtLeast(rs, p) == hi;
    InsertBeforeTail(x, SortByPriority(lo), SortByPriority(hi));
  }

  lemma SplitStepAtLeast(rs: seq<Substitution>, p: int)
    requires |rs| > 0 && p <= rs[0].priority
    requires SortByPriority(rs[1..])
          == SortByPriority(Below(rs[1..], p)) + SortByPriority(AtLeast(rs[1..], p))
    ensures SortByPriority(rs) == SortByPriority(Below(rs, p)) + SortByPriority(AtLeast(rs, p))
  {
    var x, lo, hi := rs[0], Below(rs[1..], p), AtLeast(rs[1..], p);
    SortedPartsInOrder(rs[1..], p);
    assert AtLeast(rs, p) == [x] + hi;
    assert ([x] + hi)[0] == x && ([x] + hi)[1..] == hi;
    assert Below(rs, p) == lo;
    InsertAfterHead(x, SortByPriority(lo), SortByPriority(hi));
  }

  /**
   * Priority splits the pass: sorting the catalogue is the same as sorting
   * the rules below `p` and then, after them, the rules at `p` or above.
   */
  lemma {:induction false} SortSplitsAtPriority(rs: seq<Substitution>, p: int)
    ensures SortByPriority(rs) == SortByPriority(Below(rs, p)) + SortByPriority(AtLeast(rs, p))
    decreases |rs|
  {
    if |rs| > 0 {
      SortSplitsAtPriority(rs[1..], p);
      if rs[0].priority < p {
        SplitStepBelow(rs, p);
      } else {
        SplitStepAtLeast(rs, p);
      }
    } else {
      assert Below(rs, p) == [] && AtLeast(rs, p) == [];
    }
  }

  /** Folding a concatenation folds the first part, then the second over its output. */
  lemma {:induction false} ApplyInOrderAppend(a: seq<Substitution>, b: seq<Substitution>, o: Oracle, s: string)
    ensures ApplyInOrder(a + b, o, s) == ApplyInOrder(b, o, ApplyInOrder(a, o, s))
    decreases |a|
  {
    if |a| > 0 {
      assert (a + b)[1..] == a[1..] + b;
      ApplyInOrderAppend(a[1..], b, o, Substitute(a[0], o, s));
    } else {
      assert a + b == b;
    }
  }

  /** Rule `k` is applied exactly once, to the output of rules `0..k-1`. */
  lemma RuleSeesPrefixOutput(rs: seq<Substitution>, k: nat, o: Oracle, s: string)
    requires k < |rs|
    ensures ApplyInOrder(rs[..k + 1], o, s) == Substitute(rs[k], o, ApplyInOrder(rs[..k], o, s))
  {
    assert rs[..k + 1] == rs[..k] + [rs[k]];
    ApplyInOrderAppend(rs[..k], [rs[k]], o, s);
  }

  /**
   * Every rule of priority below `p` has run before any rule of priority `p`
   * or above sees the text; each group runs in catalogue order.
   */
  lemma LowerPriorityRunsFirst(rs: seq<Substitution>, p: int, o: Oracle, s: string)
    ensures SubstitutionPass(rs, o, s)
         == SubstitutionPass(AtLeast(rs, p), o, SubstitutionPass(Below(rs, p), o, s))
  {
    SortSplitsAtPriority(rs, p);
    ApplyInOrderAppend(SortByPriority(Below(rs, p)), SortByPriority(AtLeast(rs, p)), o, s);
  }

  /**
   * A removal replaces its leftmost match with exactly one space, never with
   * nothing, and goes on after the match.
   */
  lemma RemovalLeavesOneSpace(r: Removal, o: Oracle, s: string, p: nat)
    requires Hits(MatcherOf(r.pattern, o), s, p)
    requires forall q :: 0 <= q < p ==> !Hits(MatcherOf(r.pattern, o), s, q)
    ensures Remove(r, o, s)
         == s[..p] + " " + ReplaceFrom(MatcherOf(r.pattern, o), _ => " ", s,
                                       p + MatchAt(r.pattern, o, s, p).value)
  {
    LeftmostHit(MatcherOf(r.pattern, o), _ => " ", s, 0, p);
  }
}
