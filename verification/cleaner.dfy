/**
 * The `cleaner` entry point: the null short-circuit, text preparation, the
 * priority-sorted substitution pass, the removal pass and the finaliser.
 */
module Cleaner {
  import opened Wrappers
  import opened Patterns
  import opened Rules
  import opened Prep
  import opened Finaliser
  import opened Chars

  /** The two rule lists `cleaner` reads: the substitutions and the removals. */
  datatype Catalogue = Catalogue(substitutions: seq<Substitution>, removals: seq<Removal>)

  /**
   * `cleaner(text)`. A missing value (`pd.isnull`) is `None`. The composite
   * patterns of the catalogue are interpreted by the oracle `o`.
   */
  function Clean(text: Option<string>, cat: Catalogue, o: Oracle): (r: string)
    ensures text.None? ==> r == ""
    ensures Canonical(r)
  {
    match text
    case None => ""
    case Some(t) =>
      var s := RemovalPass(cat.removals, o, SubstitutionPass(cat.substitutions, o, PrepText(t)));
      Finalize(s)
  }

  /** The same computation, written as the loops of the source. */
  method CleanText(text: Option<string>, cat: Catalogue, o: Oracle) returns (r: string)
    ensures r == Clean(text, cat, o)
  {
    if text.None? {
      return "";
    }
    var s := PrepText(text.value);
    var sorted := SortByPriority(cat.substitutions);
    var i := 0;
    while i < |sorted|
      invariant 0 <= i <= |sorted|
      invariant ApplyInOrder(sorted[i..], o, s) == SubstitutionPass(cat.substitutions, o, PrepText(text.value))
    {
      assert sorted[i..][1..] == sorted[i + 1..];
      s := Substitute(sorted[i], o, s);
      i := i + 1;
    }
    assert sorted[i..] == [];
    var j := 0;
    var substituted := s;
    while j < |cat.removals|
      invariant 0 <= j <= |cat.removals|
      invariant RemoveInOrder(cat.removals[j..], o, s) == RemovalPass(cat.removals, o, substituted)
    {
      assert cat.removals[j..][1..] == cat.removals[j + 1..];
      s := Remove(cat.removals[j], o, s);
      j := j + 1;
    }
    assert cat.removals[j..] == [];
    var removed := s;
    var k := 0;
    while k < |AllPunctuation|
      invariant 0 <= k <= |AllPunctuation|
      invariant BlankEach(s, AllPunctuation[k..]) == BlankPunctuation(removed)
    {
      assert AllPunctuation[k..][1..] == AllPunctuation[k + 1..];
      s := ReplaceWithSpace(s, AllPunctuation[k]);
      k := k + 1;
    }
    assert AllPunctuation[k..] == [];
    r := LowerString(Join(Split(s)));
  }

  /** One `re.sub` call of the cleaner: a substitution or a removal. */
  datatype Step = Sub(substitution: Substitution) | Rem(removal: Removal)

  function RunStep(st: Step, o: Oracle, s: string): string {
    match st
    case Sub(x) => Substitute(x, o, s)
    case Rem(x) => Remove(x, o, s)
  }

  function Run(steps: seq<Step>, o: Oracle, s: string): string
    decreases |steps|
  {
    if |steps| == 0 then s else Run(steps[1..], o, RunStep(steps[0], o, s))
  }

  function Subs(rs: seq<Substitution>): seq<Step> {
    seq(|rs|, k requires 0 <= k < |rs| => Sub(rs[k]))
  }

  function Rems(rs: seq<Removal>): seq<Step> {
    seq(|rs|, k requires 0 <= k < |rs| => Rem(rs[k]))
  }

  /**
   * The order in which the cleaner issues its `re.sub` calls: every
   * substitution (in non-decreasing priority) before every removal (in
   * catalogue order), each rule exactly once.
   */
  function Schedule(cat: Catalogue): (r: seq<Step>)
    ensures |r| == |cat.substitutions| + |cat.removals|
    ensures forall i, j :: 0 <= i < j < |r| && r[j].Sub? ==> r[i].Sub?
    ensures forall i, j :: 0 <= i < j < |r| && r[j].Sub? ==>
              r[i].substitution.priority <= r[j].substitution.priority
    ensures multiset(SubstitutionsOf(r)) == multiset(cat.substitutions)
    ensures forall k :: 0 <= k < |cat.removals| ==>
              r[|cat.substitutions| + k] == Rem(cat.removals[k])
  {
    var sorted := SortByPriority(cat.substitutions);
    ScheduleShape(sorted, cat.removals);
    Subs(sorted) + Rems(cat.removals)
  }

  lemma ScheduleShape(sorted: seq<Substitution>, rems: seq<Removal>)
    requires SortedByPriority(sorted)
    ensures var r := Subs(sorted) + Rems(rems);
      && (forall i, j :: 0 <= i < j < |r| && r[j].Sub? ==> r[i].Sub?)
      && (forall i, j :: 0 <= i < j < |r| && r[j].Sub? ==>
            r[i].substitution.priority <= r[j].substitution.priority)
      && SubstitutionsOf(r) == sorted
      && (forall k :: 0 <= k < |rems| ==> r[|sorted| + k] == Rem(rems[k]))
  {
    var r := Subs(sorted) + Rems(rems);
    SortedEverywhere(sorted);
    SubstitutionsOfSubs(sorted, Rems(rems));
    forall i, j | 0 <= i < j < |r| && r[j].Sub?
      ensures r[i].Sub? && r[i].substitution.priority <= r[j].substitution.priority
    {
      assert j < |sorted| && r[j] == Sub(sorted[j]);
      assert r[i] == Sub(sorted[i]);
    }
    forall k | 0 <= k < |rems|
      ensures r[|sorted| + k] == Rem(rems[k])
    {
      assert r[|sorted| + k] == Rems(rems)[k];
    }
  }

  /** The substitutions named by a list of steps, in order. */
  function SubstitutionsOf(steps: seq<Step>): seq<Substitution>
    decreases |steps|
  {
    if |steps| == 0 then []
    else (if steps[0].Sub? then [steps[0].substitution] else []) + SubstitutionsOf(steps[1..])
  }

  lemma {:induction false} SubstitutionsOfSubs(rs: seq<Substitution>, rems: seq<Step>)
    requires forall k :: 0 <= k < |rems| ==> rems[k].Rem?
    ensures SubstitutionsOf(Subs(rs) + rems) == rs
    decreases |rs|
  {
    if |rs| == 0 {
      assert Subs(rs) + rems == rems;
      NoSubstitutions(rems);
    } else {
      assert (Subs(rs) + rems)[1..] == Subs(rs[1..]) + rems;
      SubstitutionsOfSubs(rs[1..], rems);
    }
  }

  lemma {:induction false} NoSubstitutions(rems: seq<Step>)
    requires forall k :: 0 <= k < |rems| ==> rems[k].Rem?
    ensures SubstitutionsOf(rems) == []
    decreases |rems|
  {
    if |rems| > 0 {
      NoSubstitutions(rems[1..]);
    }
  }

  /** Adjacent-pair order extends to every pair. */
  lemma SortedEverywhere(t: seq<Substitution>)
    requires SortedByPriority(t)
    ensures forall i, j :: 0 <= i < j < |t| ==> t[i].priority <= t[j].priority
  {
    forall i, j | 0 <= i < j < |t|
      ensures t[i].priority <= t[j].priority
    {
      var k := i;
      while k < j
        invariant i <= k <= j
        invariant t[i].priority <= t[k].priority
      {
        k := k + 1;
      }
    }
  }

  lemma {:induction false} RunAppend(a: seq<Step>, b: seq<Step>, o: Oracle, s: string)
    ensures Run(a + b, o, s) == Run(b, o, Run(a, o, s))
    decreases |a|
  {
    if |a| == 0 {
      assert a + b == b;
    } else {
      assert (a + b)[0] == a[0] && (a + b)[1..] == a[1..] + b;
      RunAppend(a[1..], b, o, RunStep(a[0], o, s));
    }
  }

  lemma {:induction false} RunSubs(rs: seq<Substitution>, o: Oracle, s: string)
    ensures Run(Subs(rs), o, s) == ApplyInOrder(rs, o, s)
    decreases |rs|
  {
    if |rs| > 0 {
      assert Subs(rs)[1..] == Subs(rs[1..]);
      RunSubs(rs[1..], o, Substitute(rs[0], o, s));
    }
  }

  lemma {:induction false} RunRems(rs: seq<Removal>, o: Oracle, s: string)
    ensures Run(Rems(rs), o, s) == RemoveInOrder(rs, o, s)
    decreases |rs|
  {
    if |rs| > 0 {
      assert Rems(rs)[1..] == Rems(rs[1..]);
      RunRems(rs[1..], o, Remove(rs[0], o, s));
    }
  }

  /**
   * The cleaner is the finaliser applied to the prepared text after every
   * step of its schedule has run, one after the other.
   */
  lemma CleanRunsSchedule(t: string, cat: Catalogue, o: Oracle)
    ensures Clean(Some(t), cat, o) == Finalize(Run(Schedule(cat), o, PrepText(t)))
  {
    var sorted := SortByPriority(cat.substitutions);
    RunAppend(Subs(sorted), Rems(cat.removals), o, PrepText(t));
    RunSubs(sorted, o, PrepText(t));
    RunRems(cat.removals, o, SubstitutionPass(cat.substitutions, o, PrepText(t)));
  }

  /**
   * Every substitution below priority `p` has run, in the source's order,
   * before any rule at priority `p` or above sees the text.
   */
  lemma CleanSplitsAtPriority(t: string, cat: Catalogue, o: Oracle, p: int)
    ensures Clean(Some(t), cat, o)
         == Finalize(RemovalPass(cat.removals, o,
              SubstitutionPass(AtLeast(cat.substitutions, p), o,
                SubstitutionPass(Below(cat.substitutions, p), o, PrepText(t)))))
  {
    LowerPriorityRunsFirst(cat.substitutions, p, o, PrepText(t));
  }
}
